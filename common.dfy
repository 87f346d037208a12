/** Small shared vocabulary: optional values and order-preserving filters. */
module Common {

  /** A value that may be absent (`undefined` in the source's optional fields). */
  datatype Option<+T> = None | Some(value: T) {
    /** `x ?? d`: the value when present, otherwise the default. */
    function GetOr(default: T): T {
      match this
      case Some(v) => v
      case None => default
    }
  }

  /** JavaScript truthiness of an optional string: present and not empty. */
  predicate Truthy(s: Option<string>) {
    s.Some? && s.value != ""
  }

  /** Candidate `i` is truthy and none before it is. */
  predicate FirstTruthyAt(candidates: seq<Option<string>>, i: int) {
    && 0 <= i < |candidates|
    && Truthy(candidates[i])
    && forall j :: 0 <= j < i ==> !Truthy(candidates[j])
  }

  /** `a || b || ...`: the first truthy candidate, if any. */
  function FirstTruthy(candidates: seq<Option<string>>): (r: Option<string>)
    ensures r.Some? <==> exists i :: 0 <= i < |candidates| && Truthy(candidates[i])
    ensures r.Some? ==> r.value != "" && exists i :: FirstTruthyAt(candidates, i) && candidates[i] == r
    ensures forall i :: FirstTruthyAt(candidates, i) ==> r == candidates[i]
  {
    if candidates == [] then None
    else if Truthy(candidates[0]) then candidates[0]
    else
      var r := FirstTruthy(candidates[1..]);
      assert forall i :: FirstTruthyAt(candidates, i) ==> i > 0 && FirstTruthyAt(candidates[1..], i - 1);
      assert r.Some? ==> exists i :: FirstTruthyAt(candidates[1..], i) && candidates[1..][i] == r
                                     && FirstTruthyAt(candidates, i + 1);
      r
  }

  /** `a` is obtained from `b` by deleting elements, keeping order; `idx` says
      which element of `b` each element of `a` is. */
  ghost predicate SubsequenceWith<T>(a: seq<T>, b: seq<T>, idx: seq<nat>) {
    && |idx| == |a|
    && (forall k :: 0 <= k < |idx| ==> idx[k] < |b| && a[k] == b[idx[k]])
    && (forall k, l :: 0 <= k < l < |idx| ==> idx[k] < idx[l])
  }

  /** `Array.prototype.filter` with a pure predicate. */
  function Filter<T>(s: seq<T>, p: T -> bool): (r: seq<T>)
    ensures |r| <= |s|
  {
    if s == [] then [] else (if p(s[0]) then [s[0]] else []) + Filter(s[1..], p)
  }

  /** Shifting every position by one turns a witness for `a` in `b` into
      one for `a` in `[x] + b`. */
  lemma ShiftWitness<T>(a: seq<T>, b: seq<T>, x: T, idx: seq<nat>) returns (idx': seq<nat>)
    requires SubsequenceWith(a, b, idx)
    ensures SubsequenceWith(a, [x] + b, idx')
    ensures forall k :: 0 <= k < |idx'| ==> idx'[k] == idx[k] + 1
  {
    idx' := seq(|idx|, k requires 0 <= k < |idx| => idx[k] + 1);
    assert forall k :: 0 <= k < |idx'| ==> ([x] + b)[idx'[k]] == b[idx[k]];
  }

  /** `idx` lists, in order, exactly the positions of `s` passing `p`, and
      `a` holds the elements at those positions. */
  ghost predicate FilterWitness<T>(a: seq<T>, s: seq<T>, p: T -> bool, idx: seq<nat>) {
    && SubsequenceWith(a, s, idx)
    && (forall k :: 0 <= k < |idx| ==> p(s[idx[k]]))
    && (forall i :: 0 <= i < |s| && p(s[i]) ==> i in idx)
  }

  /** A head failing the test: the tail's witness, shifted by one, is a
      witness for the whole. */
  lemma DropWitness<T>(x: T, b: seq<T>, p: T -> bool, t: seq<T>, rest: seq<nat>) returns (idx: seq<nat>)
    requires !p(x) && FilterWitness(t, b, p, rest)
    ensures FilterWitness(t, [x] + b, p, idx)
  {
    idx := ShiftWitness(t, b, x, rest);
    forall k | 0 <= k < |idx| ensures p(([x] + b)[idx[k]]) {
      assert ([x] + b)[idx[k]] == b[rest[k]];
    }
    forall i | 0 <= i < |[x] + b| && p(([x] + b)[i]) ensures i in idx {
      assert b[i - 1] == ([x] + b)[i];
      var k :| 0 <= k < |rest| && rest[k] == i - 1;
      assert idx[k] == i;
    }
  }

  /** A witness for `t` in `b`, shifted by one and preceded by position 0,
      is one for `[x] + t` in `[x] + b`. */
  lemma PrependWitness<T>(x: T, b: seq<T>, t: seq<T>, rest: seq<nat>, shifted: seq<nat>)
    requires SubsequenceWith(t, b, rest) && SubsequenceWith(t, [x] + b, shifted)
    requires forall k :: 0 <= k < |shifted| ==> shifted[k] == rest[k] + 1
    ensures SubsequenceWith([x] + t, [x] + b, [0] + shifted)
  {
    var idx := [0] + shifted;
    forall k | 1 <= k < |idx| ensures idx[k] == shifted[k - 1] && ([x] + t)[k] == t[k - 1] {
    }
  }

  /** Position 0 of a passing head, then positions that pass in the tail,
      shifted by one, all pass. */
  lemma PrependPasses<T>(x: T, b: seq<T>, p: T -> bool, rest: seq<nat>, shifted: seq<nat>)
    requires p(x) && |shifted| == |rest|
    requires forall k :: 0 <= k < |rest| ==> rest[k] < |b| && p(b[rest[k]])
    requires forall k :: 0 <= k < |shifted| ==> shifted[k] == rest[k] + 1
    ensures forall k :: 0 <= k < |[0] + shifted| ==> ([0] + shifted)[k] < |[x] + b| && p(([x] + b)[([0] + shifted)[k]])
  {
    var idx := [0] + shifted;
    forall k | 1 <= k < |idx| ensures idx[k] < |[x] + b| && p(([x] + b)[idx[k]]) {
      assert idx[k] == rest[k - 1] + 1;
      assert ([x] + b)[idx[k]] == b[rest[k - 1]];
    }
  }

  /** If the tail's positions list every passing one, position 0 and the
      shifted tail positions list every passing one of the whole. */
  lemma PrependListed<T>(x: T, b: seq<T>, p: T -> bool, rest: seq<nat>, shifted: seq<nat>)
    requires |shifted| == |rest|
    requires forall i :: 0 <= i < |b| && p(b[i]) ==> i in rest
    requires forall k :: 0 <= k < |shifted| ==> shifted[k] == rest[k] + 1
    ensures forall i :: 0 <= i < |[x] + b| && p(([x] + b)[i]) ==> i in [0] + shifted
  {
    var idx := [0] + shifted;
    forall i | 0 <= i < |[x] + b| && p(([x] + b)[i]) ensures i in idx {
      if i > 0 {
        assert b[i - 1] == ([x] + b)[i];
        var k :| 0 <= k < |rest| && rest[k] == i - 1;
        assert idx[k + 1] == i;
      }
    }
  }

  /** A head passing the test: position 0, then the tail's witness shifted
      by one, is a witness for the whole. */
  lemma KeepWitness<T>(x: T, b: seq<T>, p: T -> bool, t: seq<T>, rest: seq<nat>) returns (idx: seq<nat>)
    requires p(x) && FilterWitness(t, b, p, rest)
    ensures FilterWitness([x] + t, [x] + b, p, idx)
  {
    var shifted := ShiftWitness(t, b, x, rest);
    PrependWitness(x, b, t, rest, shifted);
    PrependPasses(x, b, p, rest, shifted);
    PrependListed(x, b, p, rest, shifted);
    idx := [0] + shifted;
  }

  /** The result of a filter is an order-preserving subsequence of its input
      that lists exactly the positions passing the test, duplicates included. */
  lemma {:induction false} FilterSubsequence<T>(s: seq<T>, p: T -> bool) returns (idx: seq<nat>)
    ensures SubsequenceWith(Filter(s, p), s, idx)
    ensures forall k :: 0 <= k < |idx| ==> p(s[idx[k]])
    ensures forall i :: 0 <= i < |s| && p(s[i]) ==> i in idx
  {
    if s == [] {
      idx := [];
    } else {
      var rest := FilterSubsequence(s[1..], p);
      assert s == [s[0]] + s[1..];
      if p(s[0]) {
        idx := KeepWitness(s[0], s[1..], p, Filter(s[1..], p), rest);
      } else {
        idx := DropWitness(s[0], s[1..], p, Filter(s[1..], p), rest);
      }
    }
  }

  /** An element is kept by a filter exactly when it occurs in the input and
      satisfies the predicate. */
  lemma {:induction false} FilterMembership<T>(s: seq<T>, p: T -> bool, x: T)
    ensures x in Filter(s, p) <==> x in s && p(x)
  {
    if s != [] {
      FilterMembership(s[1..], p, x);
      assert s == [s[0]] + s[1..];
    }
  }

  /** A filter whose predicate holds everywhere keeps everything. */
  lemma {:induction false} FilterAll<T>(s: seq<T>, p: T -> bool)
    requires forall i :: 0 <= i < |s| ==> p(s[i])
    ensures Filter(s, p) == s
  {
    if s != [] {
      FilterAll(s[1..], p);
    }
  }

  /** The number of elements of `s` satisfying `p`. */
  function Count<T>(s: seq<T>, p: T -> bool): (n: nat)
    ensures n <= |s|
    ensures n == |Filter(s, p)|
  {
    if s == [] then 0 else (if p(s[0]) then 1 else 0) + Count(s[1..], p)
  }

  /** A `forEach` over the first `n` elements that pushes `make(x, i)` for
      every element `x` at index `i` that `keep` accepts. */
  function Pushed<A, B>(s: seq<A>, n: nat, keep: (A, nat) -> bool, make: (A, nat) -> B): (r: seq<B>)
    requires n <= |s|
    ensures |r| <= n
  {
    if n == 0 then []
    else Pushed(s, n - 1, keep, make) + (if keep(s[n - 1], n - 1) then [make(s[n - 1], n - 1)] else [])
  }

  /** One more step of the `forEach`. */
  lemma PushedNext<A, B>(s: seq<A>, n: nat, keep: (A, nat) -> bool, make: (A, nat) -> B)
    requires n < |s|
    ensures Pushed(s, n + 1, keep, make)
            == Pushed(s, n, keep, make) + (if keep(s[n], n) then [make(s[n], n)] else [])
  {
  }

  /** The pushed values are those of the accepted elements, in index order:
      `idx` gives each value's index, and every accepted index is there. */
  lemma {:induction false} PushedPositions<A, B>(s: seq<A>, n: nat, keep: (A, nat) -> bool, make: (A, nat) -> B)
    returns (idx: seq<nat>)
    requires n <= |s|
    ensures |idx| == |Pushed(s, n, keep, make)|
    ensures forall k :: 0 <= k < |idx| ==>
              idx[k] < n && keep(s[idx[k]], idx[k]) && Pushed(s, n, keep, make)[k] == make(s[idx[k]], idx[k])
    ensures forall k, l :: 0 <= k < l < |idx| ==> idx[k] < idx[l]
    ensures forall i :: 0 <= i < n && keep(s[i], i) ==> i in idx
  {
    if n == 0 {
      idx := [];
    } else {
      var prev := PushedPositions(s, n - 1, keep, make);
      var before := Pushed(s, n - 1, keep, make);
      var now := Pushed(s, n, keep, make);
      if keep(s[n - 1], n - 1) {
        assert now == before + [make(s[n - 1], n - 1)];
        idx := prev + [n - 1];
        assert forall k :: 0 <= k < |prev| ==> idx[k] == prev[k] && now[k] == before[k];
        assert forall i :: i in prev ==> i in idx;
      } else {
        assert now == before;
        idx := prev;
      }
    }
  }
}
