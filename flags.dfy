/** The key letters of the section listing: flagToKey turns the text of a
    section's sh_flags (the names debug/elf gives the set bits, such as
    "SHF_WRITE+SHF_ALLOC") into one letter per recognised flag name. */
module SectionFlags {

  /** The flag names flagToKey looks for, in the order it looks. */
  const FlagNames: seq<string> := [
    "SHF_WRITE", "SHF_ALLOC", "SHF_EXECINSTR", "SHF_MERGE", "SHF_STRINGS",
    "SHF_INFO_LINK", "SHF_LINK_ORDER", "SHF_OS_NONCONFORMING", "SHF_GROUP",
    "SHF_TLS", "SHF_COMPRESSED", "SHF_MASKOS", "SHF_MASKPROC"]

  /** The letter appended for each name, position by position. */
  const FlagKeys: seq<char> := ['W', 'A', 'X', 'M', 'S', 'I', 'L', 'O', 'G', 'T', 'C', 'o', 'P']

  const FLAG_COUNT: nat := 13

  /** sub occurs in s at position j. */
  predicate OccursAt(s: string, sub: string, j: nat)
  {
    j + |sub| <= |s| && s[j..j + |sub|] == sub
  }

  /** strings.Contains, searching from position i on. */
  function ContainsFrom(s: string, sub: string, i: nat): (b: bool)
    requires i <= |s|
    ensures b <==> exists j: nat :: i <= j && OccursAt(s, sub, j)
    decreases |s| - i
  {
    if i + |sub| > |s| then false
    else if s[i..i + |sub|] == sub then
      assert OccursAt(s, sub, i);
      true
    else
      var b := ContainsFrom(s, sub, i + 1);
      assert !OccursAt(s, sub, i);
      assert b <==> exists j: nat :: i <= j && OccursAt(s, sub, j) by {
        if exists j: nat :: i <= j && OccursAt(s, sub, j) {
          var j: nat :| i <= j && OccursAt(s, sub, j);
          assert j != i && i + 1 <= j;
        }
      }
      b
  }

  /** strings.Contains(s, sub): sub occurs somewhere in s. */
  function Contains(s: string, sub: string): (b: bool)
    ensures b <==> exists j: nat :: OccursAt(s, sub, j)
  {
    ContainsFrom(s, sub, 0)
  }

  /** The position of letter ch in FlagKeys. */
  function KeyPos(ch: char): (p: nat)
    requires ch in FlagKeys
    ensures p < FLAG_COUNT && FlagKeys[p] == ch
  {
    if ch == 'W' then 0 else if ch == 'A' then 1 else if ch == 'X' then 2
    else if ch == 'M' then 3 else if ch == 'S' then 4 else if ch == 'I' then 5
    else if ch == 'L' then 6 else if ch == 'O' then 7 else if ch == 'G' then 8
    else if ch == 'T' then 9 else if ch == 'C' then 10 else if ch == 'o' then 11
    else 12
  }

  /** The letters are distinct: each one's position is its index. */
  lemma KeyPosOf(i: nat)
    requires i < FLAG_COUNT
    ensures KeyPos(FlagKeys[i]) == i
  {
  }

  /** The key after the first n tests of flagToKey. */
  function KeysUpTo(flag: string, n: nat): (key: string)
    requires n <= FLAG_COUNT
  {
    if n == 0 then ""
    else KeysUpTo(flag, n - 1) + (if Contains(flag, FlagNames[n - 1]) then [FlagKeys[n - 1]] else "")
  }

  /** One test of flagToKey: append the letter when the name occurs in the
      flag text. */
  method AddKey(key: string, flag: string, name: string, letter: char) returns (key': string)
    ensures key' == key + (if Contains(flag, name) then [letter] else "")
  {
    key' := key;
    if Contains(flag, name) {
      key' := key' + [letter];
    }
  }

  /** flagToKey: the thirteen tests, one after the other, in the order of
      FlagNames (n counts the tests done). FlagKeyMeaning states what the
      resulting key holds. */
  method FlagToKey(flag: string) returns (key: string)
    ensures key == KeysUpTo(flag, FLAG_COUNT)
  {
    ghost var n := 0;
    key := "";
    key := AddKey(key, flag, FlagNames[0], FlagKeys[0]);
    n := n + 1;
    assert key == KeysUpTo(flag, n);
    key := AddKey(key, flag, FlagNames[1], FlagKeys[1]);
    n := n + 1;
    assert key == KeysUpTo(flag, n);
    key := AddKey(key, flag, FlagNames[2], FlagKeys[2]);
    n := n + 1;
    assert key == KeysUpTo(flag, n);
    key := AddKey(key, flag, FlagNames[3], FlagKeys[3]);
    n := n + 1;
    assert key == KeysUpTo(flag, n);
    key := AddKey(key, flag, FlagNames[4], FlagKeys[4]);
    n := n + 1;
    assert key == KeysUpTo(flag, n);
    key := AddKey(key, flag, FlagNames[5], FlagKeys[5]);
    n := n + 1;
    assert key == KeysUpTo(flag, n);
    key := AddKey(key, flag, FlagNames[6], FlagKeys[6]);
    n := n + 1;
    assert key == KeysUpTo(flag, n);
    key := AddKey(key, flag, FlagNames[7], FlagKeys[7]);
    n := n + 1;
    assert key == KeysUpTo(flag, n);
    key := AddKey(key, flag, FlagNames[8], FlagKeys[8]);
    n := n + 1;
    assert key == KeysUpTo(flag, n);
    key := AddKey(key, flag, FlagNames[9], FlagKeys[9]);
    n := n + 1;
    assert key == KeysUpTo(flag, n);
    key := AddKey(key, flag, FlagNames[10], FlagKeys[10]);
    n := n + 1;
    assert key == KeysUpTo(flag, n);
    key := AddKey(key, flag, FlagNames[11], FlagKeys[11]);
    n := n + 1;
    assert key == KeysUpTo(flag, n);
    key := AddKey(key, flag, FlagNames[12], FlagKeys[12]);
    n := n + 1;
    assert key == KeysUpTo(flag, n);
  }

  /** A flag's letter is in the key after n tests exactly when it was among
      the first n names and its name occurs in the flag text. */
  lemma {:induction false} KeysUpToHas(flag: string, n: nat, i: nat)
    requires n <= FLAG_COUNT && i < FLAG_COUNT
    ensures FlagKeys[i] in KeysUpTo(flag, n) <==> i < n && Contains(flag, FlagNames[i])
  {
    if n > 0 {
      KeysUpToHas(flag, n - 1, i);
      KeyPosOf(i);
      KeyPosOf(n - 1);
    }
  }

  /** Every letter of the key after n tests belongs to one of those tests,
      and the letters appear in the order of the tests. */
  lemma {:induction false} KeysUpToOrdered(flag: string, n: nat)
    requires n <= FLAG_COUNT
    ensures forall a :: 0 <= a < |KeysUpTo(flag, n)| ==>
      KeysUpTo(flag, n)[a] in FlagKeys && KeyPos(KeysUpTo(flag, n)[a]) < n
    ensures forall a, b :: 0 <= a < b < |KeysUpTo(flag, n)| ==>
      KeyPos(KeysUpTo(flag, n)[a]) < KeyPos(KeysUpTo(flag, n)[b])
  {
    if n > 0 {
      KeysUpToOrdered(flag, n - 1);
      KeyPosOf(n - 1);
    }
  }

  /** What flagToKey promises: the letter of each of the thirteen names is
      in the key iff the name occurs in the flag text, no other character is,
      and the letters keep the order W A X M S I L O G T C o P, so none
      appears twice. */
  lemma FlagKeyMeaning(flag: string, n: nat)
    requires n == FLAG_COUNT
    ensures forall i :: 0 <= i < FLAG_COUNT ==>
      (FlagKeys[i] in KeysUpTo(flag, n) <==> Contains(flag, FlagNames[i]))
    ensures forall ch :: ch in KeysUpTo(flag, n) ==> ch in FlagKeys
    ensures forall a, b :: 0 <= a < b < |KeysUpTo(flag, n)| ==>
      KeyPos(KeysUpTo(flag, n)[a]) < KeyPos(KeysUpTo(flag, n)[b])
  {
    forall i | 0 <= i < FLAG_COUNT
      ensures FlagKeys[i] in KeysUpTo(flag, n) <==> Contains(flag, FlagNames[i])
    {
      KeysUpToHas(flag, n, i);
    }
    KeysUpToOrdered(flag, n);
  }
}
