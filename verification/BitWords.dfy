/**
 Single bits of a number, as the C code tests, sets and clears them with shifted masks.
 */
module BitWords {

  /** `w & (1 << i)`. */
  predicate TestBit(w: nat, i: nat)
    decreases i
  {
    if i == 0 then w % 2 == 1 else TestBit(w / 2, i - 1)
  }

  /** `w | (1 << i)`. */
  function SetBit(w: nat, i: nat): nat
    decreases i
  {
    if i == 0 then w - w % 2 + 1 else 2 * SetBit(w / 2, i - 1) + w % 2
  }

  /** `w & ~(1 << i)`. */
  function ClearBit(w: nat, i: nat): nat
    decreases i
  {
    if i == 0 then w - w % 2 else 2 * ClearBit(w / 2, i - 1) + w % 2
  }

  /** `a & b` has a bit below `n` set. */
  predicate Meet(a: nat, b: nat, n: nat)
    decreases n
  {
    n > 0 && ((a % 2 == 1 && b % 2 == 1) || Meet(a / 2, b / 2, n - 1))
  }

  lemma {:induction false} TestAfterSet(w: nat, i: nat, j: nat)
    ensures TestBit(SetBit(w, i), j) == (i == j || TestBit(w, j))
    decreases i
  {
    if i > 0 && j > 0 {
      TestAfterSet(w / 2, i - 1, j - 1);
      assert SetBit(w, i) / 2 == SetBit(w / 2, i - 1);
    }
  }

  lemma {:induction false} TestAfterClear(w: nat, i: nat, j: nat)
    ensures TestBit(ClearBit(w, i), j) == (i != j && TestBit(w, j))
    decreases i
  {
    if i > 0 && j > 0 {
      TestAfterClear(w / 2, i - 1, j - 1);
      assert ClearBit(w, i) / 2 == ClearBit(w / 2, i - 1);
    }
  }

  lemma {:induction false} SetStaysByte(w: nat, i: nat)
    requires w < 0x100 && i < 8
    ensures SetBit(w, i) < 0x100 && ClearBit(w, i) < 0x100
  {
    assert Power(8) == 0x100 by { assert Power(4) == 16; }
    StaysBelow(w, i, 8);
  }

  function Power(n: nat): nat {
    if n == 0 then 1 else 2 * Power(n - 1)
  }

  lemma {:induction false} StaysBelow(w: nat, i: nat, n: nat)
    requires i < n && w < Power(n)
    ensures SetBit(w, i) < Power(n) && ClearBit(w, i) < Power(n)
    decreases n
  {
    if i > 0 {
      StaysBelow(w / 2, i - 1, n - 1);
    }
  }

  lemma {:induction false} MeetIsCommonBit(a: nat, b: nat, n: nat)
    ensures Meet(a, b, n) <==> exists i :: 0 <= i < n && TestBit(a, i) && TestBit(b, i)
    decreases n
  {
    if n > 0 {
      MeetIsCommonBit(a / 2, b / 2, n - 1);
      if Meet(a, b, n) {
        if a % 2 == 1 && b % 2 == 1 {
          MeetingBit(a, b, n, 0);
        } else {
          var i :| 0 <= i < n - 1 && TestBit(a / 2, i) && TestBit(b / 2, i);
          MeetingBit(a, b, n, i + 1);
        }
      } else if i :| 0 <= i < n && TestBit(a, i) && TestBit(b, i) {
        if i > 0 {
          MeetingBit(a / 2, b / 2, n - 1, i - 1);
        }
      }
    }
  }

  lemma MeetingBit(a: nat, b: nat, n: nat, i: nat)
    requires i < n && TestBit(a, i) && TestBit(b, i)
    ensures exists k :: 0 <= k < n && TestBit(a, k) && TestBit(b, k)
  {
  }
}
