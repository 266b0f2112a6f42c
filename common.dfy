/** Values shared by the whole model: optional values, the outcome of one call
    to the paged fetcher, JavaScript truthiness and the few string and sequence
    predicates the aggregation engine relies on. */
module Common {

  datatype Option<T> = None | Some(value: T)

  /** The outcome of one `fetchAllPages` call: every page concatenated, or a
      failure of the whole call (partial pages are never observed). */
  datatype Fetch<T> = Fetched(items: T) | Failed

  /** JavaScript truthiness of a string field that may be missing. */
  predicate Truthy(s: Option<string>)
  {
    s.Some? && s.value != ""
  }

  /** How a template literal renders a field that may be missing. */
  function Render(s: Option<string>): string
  {
    if s.Some? then s.value else "undefined"
  }

  /** `s.endsWith(suffix)` */
  predicate EndsWith(s: string, suffix: string)
  {
    |suffix| <= |s| && s[|s| - |suffix|..] == suffix
  }

  /** `s.includes(part)` */
  predicate Contains(s: string, part: string)
  {
    |part| <= |s| && (s[..|part|] == part || Contains(s[1..], part))
  }

  /** `part` occurs in `s` starting at position `k`. */
  predicate OccursAt(s: string, part: string, k: nat)
  {
    k + |part| <= |s| && s[k..k + |part|] == part
  }

  /** `part` occurs at position `k` of `s`, so `s` contains it. */
  lemma {:induction false} OccurrenceContains(s: string, part: string, k: nat)
    requires OccursAt(s, part, k)
    ensures Contains(s, part)
    decreases k
  {
    if k > 0 {
      assert s[1..][k - 1..k - 1 + |part|] == s[k..k + |part|];
      OccurrenceContains(s[1..], part, k - 1);
    }
  }

  /** Where `s` contains `part`, there is a position it occurs at. */
  lemma {:induction false} ContainsOccurrence(s: string, part: string) returns (k: nat)
    requires Contains(s, part)
    ensures OccursAt(s, part, k)
    decreases |s|
  {
    if s[..|part|] == part {
      k := 0;
    } else {
      var j := ContainsOccurrence(s[1..], part);
      assert s[1..][j..j + |part|] == s[j + 1..j + 1 + |part|];
      k := j + 1;
    }
  }

  /** `Contains` holds exactly when there is a position `part` occurs at. */
  lemma ContainsIff(s: string, part: string)
    ensures Contains(s, part) <==> exists k: nat :: OccursAt(s, part, k)
  {
    if Contains(s, part) {
      var k := ContainsOccurrence(s, part);
    }
    if k: nat :| OccursAt(s, part, k) {
      OccurrenceContains(s, part, k);
    }
  }

  predicate Distinct<T(==)>(xs: seq<T>)
  {
    forall i, j | 0 <= i < j < |xs| :: xs[i] != xs[j]
  }

  /** `Set.prototype.add` on an insertion-ordered set held as a sequence. */
  function Add<T(==)>(xs: seq<T>, x: T): seq<T>
  {
    if x in xs then xs else xs + [x]
  }

  /** Adds every element of `ts`, one after the other, to the ordered set `xs`. */
  function AddAll<T(==)>(xs: seq<T>, ts: seq<T>): seq<T>
  {
    if ts == [] then xs else Add(AddAll(xs, ts[..|ts| - 1]), ts[|ts| - 1])
  }

  lemma AddAllSnoc<T>(xs: seq<T>, ts: seq<T>, t: T)
    ensures AddAll(xs, ts + [t]) == Add(AddAll(xs, ts), t)
  {
    assert (ts + [t])[..|ts|] == ts;
  }

  lemma {:induction false} AddAllKeepsOrder<T>(xs: seq<T>, ts: seq<T>)
    ensures xs <= AddAll(xs, ts)
    ensures forall x :: x in AddAll(xs, ts) <==> x in xs || x in ts
    ensures Distinct(xs) ==> Distinct(AddAll(xs, ts))
  {
    if ts != [] {
      var init := ts[..|ts| - 1];
      AddAllKeepsOrder(xs, init);
      assert ts == init + [ts[|ts| - 1]];
    }
  }

  /** In a sequence without repetitions every element occurs exactly once. */
  lemma {:induction false} DistinctOccursOnce<T>(xs: seq<T>, x: T)
    requires Distinct(xs) && x in xs
    ensures multiset(xs)[x] == 1
  {
    if xs[0] == x {
      assert x !in xs[1..];
    } else {
      DistinctOccursOnce(xs[1..], x);
    }
    assert xs == [xs[0]] + xs[1..];
  }
}
