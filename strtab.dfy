/** String tables ("String Table" in chapter 4 of the System V ABI): a blob
    of NUL-terminated strings, each named by the byte offset of its first
    character. One lookup serves section names (.shstrtab) and symbol names
    (.strtab, .dynstr). */
module StrTab {
  import opened Bytes

  /** The first index e >= k with t[e] == 0, or |t| when there is none. */
  function NulEnd(t: seq<byte>, k: nat): (e: nat)
    requires k <= |t|
    ensures k <= e <= |t|
    ensures forall j :: k <= j < e ==> t[j] != 0
    ensures e < |t| ==> t[e] == 0
    decreases |t| - k
  {
    if k == |t| || t[k] == 0 then k else NulEnd(t, k + 1)
  }

  /** Go's string(b): one character per byte, with the byte's code. */
  function ToString(b: seq<byte>): (s: string)
    ensures |s| == |b|
    ensures forall i :: 0 <= i < |b| ==> s[i] as int == b[i]
  {
    seq(|b|, i requires 0 <= i < |b| => b[i] as char)
  }

  /** The string at offset k of table t: the longest run of non-NUL bytes
      that starts at k, cut short by the end of the table. */
  function StringAt(t: seq<byte>, k: nat): (s: string)
    requires k <= |t|
    ensures |s| <= |t| - k
    ensures forall i :: 0 <= i < |s| ==> s[i] as int == t[k + i] && s[i] != 0 as char
    ensures k + |s| == |t| || t[k + |s|] == 0
    ensures k == |t| ==> s == ""
  {
    ToString(t[k..NulEnd(t, k)])
  }

  /** getSectionName: scans forward from sIndex to the first NUL or the end
      of the table and returns the bytes in between. An offset past the end
      makes the Go slice expression panic, hence the precondition; the length
      is compared as a uint32. */
  method GetSectionName(sIndex: u32, t: seq<byte>) returns (name: string)
    requires sIndex <= |t| < TWO32
    ensures name == StringAt(t, sIndex)
  {
    var end := sIndex;
    while end < |t|
      invariant sIndex <= end <= |t|
      invariant forall j :: sIndex <= j < end ==> t[j] != 0
    {
      if t[end] == 0 {
        break;
      }
      end := end + 1;
    }
    assert end == NulEnd(t, sIndex) by {
      NulEndUnique(t, sIndex, end);
    }
    name := ToString(t[sIndex..end]);
  }

  /** getSymbolName: the same lookup in a symbol string table. */
  method GetSymbolName(symIndex: u32, t: seq<byte>) returns (name: string)
    requires symIndex <= |t| < TWO32
    ensures name == StringAt(t, symIndex)
  {
    name := GetSectionName(symIndex, t);
  }

  /** NulEnd is the only index with its two defining properties. */
  lemma {:induction false} NulEndUnique(t: seq<byte>, k: nat, e: nat)
    requires k <= e <= |t|
    requires forall j :: k <= j < e ==> t[j] != 0
    requires e < |t| ==> t[e] == 0
    ensures e == NulEnd(t, k)
    decreases e - k
  {
    if k < e {
      NulEndUnique(t, k + 1, e);
    }
  }

  /** A string ends with a NUL inside the table, or with the table. Any
      position of the run, looked up on its own, gives the rest of the run:
      the lookup depends on the offset and the table only. */
  lemma {:induction false} StringAtSuffix(t: seq<byte>, k: nat, i: nat)
    requires k <= |t| && i <= |StringAt(t, k)|
    ensures StringAt(t, k + i) == StringAt(t, k)[i..]
  {
    var s := StringAt(t, k);
    var r := StringAt(t, k + i);
    assert |r| == |s| - i;
    forall j | 0 <= j < |r| ensures r[j] == s[i..][j] {
      assert r[j] as int == t[k + i + j] && s[i + j] as int == t[k + i + j];
    }
  }
}
