/**
 The parts of C++ that the decryptor relies on: the `uint8_t` type and narrowing
 into it, substring search in a `std::string` from a start position, and the
 `npos` sentinel that search returns when nothing is found.
 */
module CppString {

  /** A `uint8_t` (also the Windows `BYTE`). */
  newtype byte = x: int | 0 <= x < 256

  /** Assignment of an unsigned value to a `uint8_t`: the value modulo 256. */
  function Narrow(n: nat): byte
  {
    (n % 256) as byte
  }

  /** `std::string::npos`, the largest value of a 64-bit `size_t`. */
  const NPos: nat := 0xFFFF_FFFF_FFFF_FFFF

  /** `pat` occurs in `s` starting at index `k`. */
  predicate OccursAt(s: string, pat: string, k: nat)
  {
    k + |pat| <= |s| && s[k..k + |pat|] == pat
  }

  /** `k` is the first index at or after `from` where `pat` occurs in `s`. */
  ghost predicate FirstAt(s: string, pat: string, from: nat, k: nat)
  {
    from <= k && OccursAt(s, pat, k) &&
    forall j :: from <= j < k ==> !OccursAt(s, pat, j)
  }

  /** `pat` occurs nowhere in `s` at or after `from`. */
  ghost predicate AbsentFrom(s: string, pat: string, from: nat)
  {
    forall j :: from <= j ==> !OccursAt(s, pat, j)
  }

  /**
   `s.find(pat, from)`: the lowest index at or after `from` where `pat` occurs,
   or `NPos` when there is none (also when `from` lies beyond the end of `s`).
   A `std::string` is never as long as `npos` (its `max_size()` is smaller).
   */
  function Find(s: string, pat: string, from: nat): nat
    requires |s| < NPos
    decreases |s| - from
  {
    if from + |pat| > |s| then NPos
    else if OccursAt(s, pat, from) then from
    else Find(s, pat, from + 1)
  }

  /** `Find` returns `NPos` exactly when `pat` is absent, and otherwise its first occurrence. */
  lemma {:induction false} FindSpec(s: string, pat: string, from: nat)
    requires |s| < NPos
    ensures var r := Find(s, pat, from);
      (r == NPos <==> AbsentFrom(s, pat, from)) &&
      (r != NPos ==> r + |pat| <= |s| && FirstAt(s, pat, from, r))
    decreases |s| - from
  {
    if from + |pat| <= |s| && !OccursAt(s, pat, from) {
      FindSpec(s, pat, from + 1);
    }
  }

  /** A one-character pattern occurs exactly where that character stands. */
  lemma OccursAtChar(s: string, c: char, k: nat)
    ensures OccursAt(s, [c], k) <==> k < |s| && s[k] == c
  {
    if k < |s| {
      assert s[k..k + 1] == [s[k]];
    }
  }

  /** `s.find(c, from)` gives the first index at or after `from` holding `c`. */
  lemma {:induction false} FindChar(s: string, c: char, from: nat)
    requires |s| < NPos
    ensures var r := Find(s, [c], from);
      (r == NPos <==> forall j :: from <= j < |s| ==> s[j] != c) &&
      (r != NPos ==> from <= r < |s| && s[r] == c &&
                     forall j :: from <= j < r ==> s[j] != c)
  {
    var r := Find(s, [c], from);
    FindSpec(s, [c], from);
    forall j | from <= j
      ensures OccursAt(s, [c], j) <==> j < |s| && s[j] == c
    {
      OccursAtChar(s, c, j);
    }
  }
}
