/**
 Searching guest memory for a byte pattern: the loop of `rv64_vm_find`, which backs up after a
 partial match.
 */
module Find {
  import opened Wrappers
  import opened Words
  import opened Memory

  /** One-byte loads; an address that faults has no byte. */
  type Reader = Word -> Option<Byte>

  function At(start: Word, i: int): Word { Wrap(start + i) }

  /** The pattern is readable and matches at offset `c` from the start address. */
  predicate MatchAt(read: Reader, start: Word, pat: seq<Byte>, c: nat) {
    Matches(read, start, pat, c, |pat|)
  }

  predicate Matches(read: Reader, start: Word, pat: seq<Byte>, c: nat, m: nat)
    requires m <= |pat|
  {
    forall k :: 0 <= k < m ==> read(At(start, c + k)) == Some(pat[k])
  }

  predicate NoneBelow(read: Reader, start: Word, pat: seq<Byte>, c: nat) {
    forall d: nat :: d < c ==> !MatchAt(read, start, pat, d)
  }

  /** A byte that differs, or cannot be read, rules out the match it would have been part of. */
  lemma Mismatch(read: Reader, start: Word, pat: seq<Byte>, c: nat, m: nat)
    requires m < |pat| && read(At(start, c + m)) != Some(pat[m])
    ensures !MatchAt(read, start, pat, c)
  {
  }

  /** An unreadable byte rules out every match that covers it. */
  lemma Unreadable(read: Reader, start: Word, pat: seq<Byte>, c: nat, i: nat)
    requires c <= i < c + |pat| && read(At(start, i)) == None && NoneBelow(read, start, pat, c)
    ensures NoneBelow(read, start, pat, i + 1)
  {
    forall d: nat | d < i + 1
      ensures !MatchAt(read, start, pat, d)
    {
      if c <= d {
        assert read(At(start, d + (i - d))) == None;
        Mismatch(read, start, pat, d, i - d);
      }
    }
  }

  /** The address reported for the match that ends at offset `i`. */
  function Reported(start: Word, i: nat, n: nat): Word { At(start, i - n + 1) }

  /** The least offset at which the pattern matches inside the range. */
  ghost predicate LowestMatch(read: Reader, start: Word, pat: seq<Byte>, length: int, c: nat) {
    c + |pat| <= length && MatchAt(read, start, pat, c) && NoneBelow(read, start, pat, c)
  }

  /** `rv64_vm_find`: the address of the lowest match inside the range, or nothing if there is none. */
  method VmFind(read: Reader, pat: seq<Byte>, start: Word, length: int) returns (found: Option<Word>)
    ensures found.None? <==>
            |pat| == 0 || forall c: nat :: c + |pat| <= length ==> !MatchAt(read, start, pat, c)
    ensures found.Some? ==>
              exists c: nat :: LowestMatch(read, start, pat, length, c) && found.value == At(start, c)
  {
    hide Matches, NoneBelow;
    var patLen := |pat|;
    StartOfSearch(read, start, pat, length);
    if patLen == 0 { return None; }
    if patLen > length { return None; }
    var matchPos := 0;
    var i := 0;
    while i < length
      invariant 0 <= matchPos <= i <= length && matchPos < patLen
      invariant Matches(read, start, pat, i - matchPos, matchPos)
      invariant NoneBelow(read, start, pat, i - matchPos)
      decreases length - (i - matchPos), length - i
    {
      var byte := read(At(start, i));
      ghost var c := i - matchPos;
      if byte == None {
        Unreadable(read, start, pat, c, i);
        matchPos := 0;
        i := i + 1;
        continue;
      }
      if byte.value == pat[matchPos] {
        MatchGrows(read, start, pat, c, matchPos);
        matchPos := matchPos + 1;
        if matchPos == patLen {
          assert c + |pat| <= length && MatchAt(read, start, pat, c);
          assert LowestMatch(read, start, pat, length, c);
          return Some(Reported(start, i, patLen));
        }
      } else {
        BackUp(read, start, pat, c, matchPos);
        if matchPos > 0 {
          i := i - matchPos;
          matchPos := 0;
        }
      }
      i := i + 1;
    }
    Exhausted(read, start, pat, length, length - matchPos);
    return None;
  }

  /** Nothing has been compared yet; and a pattern longer than the range has no match in it. */
  lemma StartOfSearch(read: Reader, start: Word, pat: seq<Byte>, length: int)
    ensures NoneBelow(read, start, pat, 0) && forall c: nat :: Matches(read, start, pat, c, 0)
    ensures |pat| > length ==> forall c: nat :: c + |pat| <= length ==> !MatchAt(read, start, pat, c)
  {
  }

  /** One more byte of a match. */
  lemma MatchGrows(read: Reader, start: Word, pat: seq<Byte>, c: nat, m: nat)
    requires m < |pat| && Matches(read, start, pat, c, m) && read(At(start, c + m)) == Some(pat[m])
    ensures Matches(read, start, pat, c, m + 1)
  {
  }

  /** After a byte that differs, the search goes on one past the start of the partial match. */
  lemma BackUp(read: Reader, start: Word, pat: seq<Byte>, c: nat, m: nat)
    requires m < |pat| && read(At(start, c + m)) != Some(pat[m]) && NoneBelow(read, start, pat, c)
    ensures NoneBelow(read, start, pat, c + 1)
  {
    Mismatch(read, start, pat, c, m);
  }

  /** At the end of the range, a partial match is too long for what is left. */
  lemma Exhausted(read: Reader, start: Word, pat: seq<Byte>, length: int, c: nat)
    requires NoneBelow(read, start, pat, c) && length < c + |pat|
    ensures forall d: nat :: d + |pat| <= length ==> !MatchAt(read, start, pat, d)
  {
  }
}
