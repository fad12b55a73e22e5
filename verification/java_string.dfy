/**
 * The two `java.lang.String` operations the host normaliser relies on:
 * `startsWith(prefix)` and `replace(target, "")`.
 */
module JavaString {

  /** `p` occurs in `s` at index `i`. */
  predicate OccursAt(s: string, p: string, i: int)
  {
    0 <= i && i + |p| <= |s| && s[i..i + |p|] == p
  }

  /** `s.startsWith(p)`. */
  predicate StartsWith(s: string, p: string)
  {
    OccursAt(s, p, 0)
  }

  /** `s.contains(p)`. */
  predicate Contains(s: string, p: string)
  {
    exists i | 0 <= i <= |s| - |p| :: OccursAt(s, p, i)
  }

  /**
   * `s.replace(target, "")` for a non-empty target: one left-to-right scan that
   * deletes every non-overlapping occurrence it finds, resuming right after each
   * deleted occurrence. Deleting never lengthens the string.
   */
  function RemoveAll(s: string, target: string): (r: string)
    requires target != []
    ensures |r| <= |s|
    decreases |s|
  {
    if |s| < |target| then s
    else if s[..|target|] == target then RemoveAll(s[|target|..], target)
    else [s[0]] + RemoveAll(s[1..], target)
  }

  /** A string in which the target does not occur comes back unchanged. */
  lemma {:induction false} RemoveAllWithoutOccurrence(s: string, target: string)
    requires target != []
    requires !Contains(s, target)
    ensures RemoveAll(s, target) == s
    decreases |s|
  {
    if |s| >= |target| {
      assert !OccursAt(s, target, 0);
      forall i | 0 <= i <= |s[1..]| - |target| ensures !OccursAt(s[1..], target, i) {
        if OccursAt(s[1..], target, i) {
          assert s[1..][i..i + |target|] == s[i + 1..i + 1 + |target|];
          assert OccursAt(s, target, i + 1);
        }
      }
      RemoveAllWithoutOccurrence(s[1..], target);
      assert [s[0]] + s[1..] == s;
    }
  }

  /**
   * The scan deletes the leftmost occurrence: when no occurrence starts inside
   * `u`, the first occurrence is the `target` right after `u`, it is deleted,
   * `u` is kept as it is, and the scan goes on with `v` alone.
   */
  lemma {:induction false} RemoveAllLeftmost(u: string, target: string, v: string)
    requires target != []
    requires forall i :: 0 <= i < |u| ==> !OccursAt(u + target + v, target, i)
    ensures RemoveAll(u + target + v, target) == u + RemoveAll(v, target)
    decreases |u|
  {
    var s := u + target + v;
    if u == [] {
      assert s == target + v;
      assert s[..|target|] == target;
      assert s[|target|..] == v;
    } else {
      assert !OccursAt(s, target, 0);
      assert s[1..] == u[1..] + target + v;
      forall i | 0 <= i < |u[1..]| ensures !OccursAt(u[1..] + target + v, target, i) {
        if OccursAt(u[1..] + target + v, target, i) {
          assert s[1..][i..i + |target|] == s[i + 1..i + 1 + |target|];
          assert OccursAt(s, target, i + 1);
        }
      }
      RemoveAllLeftmost(u[1..], target, v);
      assert [u[0]] + u[1..] == u;
    }
  }
}
