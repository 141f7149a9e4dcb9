/** Generic slice helpers (package fns).

    Each Go function is a loop that appends to an accumulator or writes a map;
    here each is a method with the same loop, proved against a reference
    definition (a function) or against a direct statement of its result.
    Go's slices become sequences, a Go map becomes a Dafny map, and the
    `map[T]struct{}` that Unique uses as a set becomes a set. */
module Fns {

  /* ---------------------------------------------------------------------- */
  /* SliceToMap                                                             */
  /* ---------------------------------------------------------------------- */

  /** Position i holds the last element of s whose key is f(s[i]). */
  predicate IsLastWithKey<K(==), T>(s: seq<T>, f: T -> K, i: int) {
    0 <= i < |s| && forall j :: i < j < |s| ==> f(s[j]) != f(s[i])
  }

  /** SliceToMap: one entry per key f(v); when several elements share a key,
      the later write wins, so the entry holds the last of them. */
  method SliceToMap<K(==), T>(s: seq<T>, f: T -> K) returns (m: map<K, T>)
    ensures m.Keys == set i | 0 <= i < |s| :: f(s[i])
    ensures forall i :: IsLastWithKey(s, f, i) ==> f(s[i]) in m && m[f(s[i])] == s[i]
  {
    m := map[];
    for n := 0 to |s|
      invariant m.Keys == set i | 0 <= i < n :: f(s[i])
      invariant forall i :: IsLastWithKey(s[..n], f, i) ==> f(s[i]) in m && m[f(s[i])] == s[i]
    {
      m := m[f(s[n]) := s[n]];
      forall i | IsLastWithKey(s[..n + 1], f, i)
        ensures f(s[i]) in m && m[f(s[i])] == s[i]
      {
        if i < n {
          LastWithKeyInPrefix(s, f, n, i);
        }
      }
    }
    assert s[..|s|] == s;
  }

  /** The last element with its key among the first n + 1 elements, if it
      comes before position n, is also last among the first n, and element n
      has another key. */
  lemma LastWithKeyInPrefix<K, T>(s: seq<T>, f: T -> K, n: int, i: int)
    requires 0 <= i < n < |s| && IsLastWithKey(s[..n + 1], f, i)
    ensures IsLastWithKey(s[..n], f, i) && f(s[n]) != f(s[i])
  {
    assert s[..n + 1][n] == s[n] && s[..n + 1][i] == s[i];
    forall j | i < j < n ensures f(s[..n][j]) != f(s[..n][i]) {
      assert s[..n + 1][j] == s[j];
    }
  }

  /** Every key has a last element, so the map is fully determined. */
  lemma {:induction false} LastWithKeyExists<K, T>(s: seq<T>, f: T -> K, i: int)
    requires 0 <= i < |s|
    ensures exists j :: IsLastWithKey(s, f, j) && f(s[j]) == f(s[i])
    decreases |s| - i
  {
    if !IsLastWithKey(s, f, i) {
      var j :| i < j < |s| && f(s[j]) == f(s[i]);
      LastWithKeyExists(s, f, j);
    }
  }

  /* ---------------------------------------------------------------------- */
  /* Filter and FilterParam                                                 */
  /* ---------------------------------------------------------------------- */

  /** Reference definition: the elements of s that satisfy f, in order. */
  function Filtered<T>(s: seq<T>, f: T -> bool): (r: seq<T>)
    ensures |r| <= |s|
    ensures forall k :: 0 <= k < |r| ==> f(r[k])
  {
    if s == [] then []
    else Filtered(s[..|s| - 1], f) + (if f(s[|s| - 1]) then [s[|s| - 1]] else [])
  }

  /** The positions of s whose elements satisfy f, in increasing order. */
  function Selecting<T>(s: seq<T>, f: T -> bool): seq<nat> {
    if s == [] then []
    else Selecting(s[..|s| - 1], f) + (if f(s[|s| - 1]) then [|s| - 1] else [])
  }

  predicate StrictlyIncreasing(pos: seq<nat>) {
    forall a, b :: 0 <= a < b < |pos| ==> pos[a] < pos[b]
  }

  /** Filtered(s, f) is exactly the subsequence of s taken at the positions
      whose elements satisfy f: in order, none skipped, none added. */
  lemma {:induction false} FilteredIsSubsequence<T>(s: seq<T>, f: T -> bool)
    ensures var pos, r := Selecting(s, f), Filtered(s, f);
      && |pos| == |r|
      && StrictlyIncreasing(pos)
      && (forall k :: 0 <= k < |pos| ==> pos[k] < |s| && r[k] == s[pos[k]])
      && (forall i :: 0 <= i < |s| ==> (f(s[i]) <==> i in pos))
  {
    if s != [] {
      var init := s[..|s| - 1];
      FilteredIsSubsequence(init, f);
      var pos0 := Selecting(init, f);
      assert forall k :: 0 <= k < |pos0| ==> pos0[k] < |init|;
      forall i | 0 <= i < |init| ensures s[i] == init[i] { }
    }
  }

  /** Filter: keeps the elements that satisfy f, in their order. */
  method Filter<T>(s: seq<T>, f: T -> bool) returns (r: seq<T>)
    ensures r == Filtered(s, f)
  {
    r := [];
    for i := 0 to |s|
      invariant r == Filtered(s[..i], f)
    {
      assert s[..i + 1][..i] == s[..i];
      if f(s[i]) {
        r := r + [s[i]];
      }
    }
    assert s[..|s|] == s;
  }

  /** The predicate f with its second argument fixed to p. */
  function WithParam<T, P>(f: (T, P) -> bool, p: P): T -> bool {
    v => f(v, p)
  }

  /** FilterParam: keeps the elements v with f(v, p), in their order. */
  method FilterParam<T, P>(s: seq<T>, p: P, f: (T, P) -> bool) returns (r: seq<T>)
    ensures r == Filtered(s, WithParam(f, p))
  {
    r := [];
    for i := 0 to |s|
      invariant r == Filtered(s[..i], WithParam(f, p))
    {
      assert s[..i + 1][..i] == s[..i];
      if f(s[i], p) {
        r := r + [s[i]];
      }
    }
    assert s[..|s|] == s;
  }

  /* ---------------------------------------------------------------------- */
  /* Map                                                                    */
  /* ---------------------------------------------------------------------- */

  /** Map: a slice of the same length whose i-th element is f of the i-th
      input. The result slice is allocated first (zero-filled, as Go's make
      does) and then written element by element. */
  method Map<T, U(0)>(s: seq<T>, f: T -> U) returns (r: seq<U>)
    ensures |r| == |s|
    ensures forall i :: 0 <= i < |s| ==> r[i] == f(s[i])
  {
    var a := new U[|s|];
    for i := 0 to |s|
      invariant forall k :: 0 <= k < i ==> a[k] == f(s[k])
    {
      a[i] := f(s[i]);
    }
    r := a[..];
  }

  /* ---------------------------------------------------------------------- */
  /* Unique                                                                 */
  /* ---------------------------------------------------------------------- */

  /** Reference definition: s with every repeated occurrence dropped. */
  function Deduplicated<T(==)>(s: seq<T>): (r: seq<T>)
    ensures forall k :: 0 <= k < |r| ==> r[k] in s
    ensures forall k :: 0 <= k < |s| ==> s[k] in r
  {
    if s == [] then []
    else if s[|s| - 1] in s[..|s| - 1] then Deduplicated(s[..|s| - 1])
    else Deduplicated(s[..|s| - 1]) + [s[|s| - 1]]
  }

  predicate NoDuplicates<T(==)>(s: seq<T>) {
    forall a, b :: 0 <= a < b < |s| ==> s[a] != s[b]
  }

  /** The position of the first occurrence of x in s. */
  function FirstIndex<T(==)>(s: seq<T>, x: T): (k: nat)
    requires x in s
    ensures k < |s| && s[k] == x && x !in s[..k]
  {
    if s[0] == x then 0 else 1 + FirstIndex(s[1..], x)
  }

  lemma FirstIndexOfPrefix<T>(s: seq<T>, n: nat, x: T)
    requires n <= |s| && x in s[..n]
    ensures FirstIndex(s[..n], x) == FirstIndex(s, x)
  {
  }

  /** The elements of r, all found in s, appear in r in the order of their
      first occurrences in s. */
  predicate InFirstOccurrenceOrder<T(==)>(s: seq<T>, r: seq<T>)
    requires forall k :: 0 <= k < |r| ==> r[k] in s
  {
    forall a, b :: 0 <= a < b < |r| ==> FirstIndex(s, r[a]) < FirstIndex(s, r[b])
  }

  /** Each distinct element once, in the order of first occurrence. */
  lemma {:induction false} DeduplicatedKeepsFirstOccurrences<T>(s: seq<T>)
    ensures NoDuplicates(Deduplicated(s))
    ensures InFirstOccurrenceOrder(s, Deduplicated(s))
  {
    if s != [] {
      var init, last := s[..|s| - 1], s[|s| - 1];
      DeduplicatedKeepsFirstOccurrences(init);
      var r0 := Deduplicated(init);
      forall k | 0 <= k < |r0|
        ensures r0[k] in init && FirstIndex(s, r0[k]) == FirstIndex(init, r0[k]) < |init|
      {
        FirstIndexOfPrefix(s, |s| - 1, r0[k]);
      }
      forall a, b | 0 <= a < b < |r0| ensures FirstIndex(s, r0[a]) < FirstIndex(s, r0[b]) {
        assert FirstIndex(init, r0[a]) < FirstIndex(init, r0[b]);
      }
      if last !in init {
        assert FirstIndex(s, last) == |s| - 1;
        var r := r0 + [last];
        assert r == Deduplicated(s);
        forall a, b | 0 <= a < b < |r| ensures FirstIndex(s, r[a]) < FirstIndex(s, r[b]) {
          assert r[a] == r0[a];
          if b < |r0| {
            assert r[b] == r0[b];
          } else {
            assert r[b] == last;
          }
        }
        forall a, b | 0 <= a < b < |r| ensures r[a] != r[b] {
          assert r[a] == r0[a];
          if b < |r0| {
            assert r[b] == r0[b];
          } else {
            assert r[b] == last && r0[a] in init;
          }
        }
      }
    }
  }

  /** Unique: the distinct elements of s in order of first occurrence, found
      with a set of the elements already seen. */
  method Unique<T(==)>(s: seq<T>) returns (r: seq<T>)
    ensures r == Deduplicated(s)
  {
    var seen: set<T> := {};
    r := [];
    for i := 0 to |s|
      invariant seen == set k | 0 <= k < i :: s[k]
      invariant r == Deduplicated(s[..i])
    {
      assert s[..i + 1][..i] == s[..i];
      assert s[i] in seen <==> s[i] in s[..i];
      if s[i] !in seen {
        seen := seen + {s[i]};
        r := r + [s[i]];
      }
    }
    assert s[..|s|] == s;
  }

  /* ---------------------------------------------------------------------- */
  /* Any and All                                                            */
  /* ---------------------------------------------------------------------- */

  /** Any: whether some element satisfies f (false for an empty slice). */
  method Any<T>(s: seq<T>, f: T -> bool) returns (b: bool)
    ensures b <==> exists i :: 0 <= i < |s| && f(s[i])
  {
    for i := 0 to |s|
      invariant forall k :: 0 <= k < i ==> !f(s[k])
    {
      if f(s[i]) {
        return true;
      }
    }
    return false;
  }

  /** All: whether every element satisfies f (true for an empty slice). */
  method All<T>(s: seq<T>, f: T -> bool) returns (b: bool)
    ensures b <==> forall i :: 0 <= i < |s| ==> f(s[i])
  {
    for i := 0 to |s|
      invariant forall k :: 0 <= k < i ==> f(s[k])
    {
      if !f(s[i]) {
        return false;
      }
    }
    return true;
  }

  /* ---------------------------------------------------------------------- */
  /* SelectRandom                                                           */
  /* ---------------------------------------------------------------------- */

  /** The choices fastrand.Intn made: the i-th lies below the length of the
      pool at that step, which has lost one element per earlier step. */
  predicate InRangePicks(size: int, picks: seq<int>) {
    |picks| <= size &&
    forall i :: 0 <= i < |picks| ==> 0 <= picks[i] < size - i
  }

  /** s without its element at position idx. */
  function RemoveAt<T>(s: seq<T>, idx: int): (r: seq<T>)
    requires 0 <= idx < |s|
    ensures |r| == |s| - 1
  {
    s[..idx] + s[idx + 1..]
  }

  /** The elements the picks select from s: the first pick chooses from s,
      each later one from what the earlier picks left. */
  function Selection<T>(s: seq<T>, picks: seq<int>): (r: seq<T>)
    requires InRangePicks(|s|, picks)
    ensures |r| == |picks|
  {
    if picks == [] then [] else [s[picks[0]]] + Selection(RemoveAt(s, picks[0]), picks[1..])
  }

  /** What the picks leave of s. */
  function Pool<T>(s: seq<T>, picks: seq<int>): (r: seq<T>)
    requires InRangePicks(|s|, picks)
    ensures |r| == |s| - |picks|
  {
    if picks == [] then s else Pool(RemoveAt(s, picks[0]), picks[1..])
  }

  /** The pool after i + 1 picks is the pool after i picks without the
      position the next pick chooses. */
  lemma {:induction false} PoolStep<T>(s: seq<T>, picks: seq<int>, i: nat)
    requires InRangePicks(|s|, picks) && i < |picks|
    ensures InRangePicks(|s|, picks[..i]) && InRangePicks(|s|, picks[..i + 1])
    ensures picks[i] < |Pool(s, picks[..i])|
    ensures Pool(s, picks[..i + 1]) == RemoveAt(Pool(s, picks[..i]), picks[i])
  {
    assert InRangePicks(|s|, picks[..i]) && InRangePicks(|s|, picks[..i + 1]);
    if i == 0 {
      assert picks[..1][1..] == [];
    } else {
      var rest := RemoveAt(s, picks[0]);
      assert InRangePicks(|rest|, picks[1..]);
      PoolStep(rest, picks[1..], i - 1);
      assert picks[..i + 1][1..] == picks[1..][..i];
      assert picks[..i][1..] == picks[1..][..i - 1];
    }
  }

  /** What is selected and what is left together make up s: no position of
      s is selected twice. */
  lemma {:induction false} SelectionAndPoolPartition<T>(s: seq<T>, picks: seq<int>)
    requires InRangePicks(|s|, picks)
    ensures multiset(Selection(s, picks)) + multiset(Pool(s, picks)) == multiset(s)
  {
    if picks != [] {
      var idx := picks[0];
      var rest := RemoveAt(s, idx);
      SelectionAndPoolPartition(rest, picks[1..]);
      RemoveAtMultiset(s, idx);
      assert Selection(s, picks) == [s[idx]] + Selection(rest, picks[1..]);
      assert Pool(s, picks) == Pool(rest, picks[1..]);
    }
  }

  /** Removing position idx removes one occurrence of s[idx]. */
  lemma RemoveAtMultiset<T>(s: seq<T>, idx: int)
    requires 0 <= idx < |s|
    ensures multiset(RemoveAt(s, idx)) + multiset{s[idx]} == multiset(s)
  {
    assert s == s[..idx] + [s[idx]] + s[idx + 1..];
  }

  /** SelectRandom, as evidently intended: n elements drawn from s without
      drawing a position twice, the i-th draw being picks[i]; s itself when it
      has no more than n elements. The caller's slice is left as it was (s is
      a value here). Go's make panics on a negative length, hence n >= 0. */
  method SelectRandom<T(0)>(s: seq<T>, n: int, picks: seq<int>) returns (r: seq<T>)
    requires n >= 0
    requires |s| > n ==> |picks| == n && InRangePicks(|s|, picks)
    ensures |s| <= n ==> r == s
    ensures |s| > n ==> r == Selection(s, picks) && |r| == n
    ensures multiset(r) <= multiset(s)
  {
    if |s| <= n {
      return s;
    }
    var a := new T[n];
    var pool := s;
    assert picks[..0] == [];
    for i := 0 to n
      invariant |pool| == |s| - i && InRangePicks(|pool|, picks[i..])
      invariant InRangePicks(|s|, picks[..i]) && pool == Pool(s, picks[..i])
      invariant a[..i] + Selection(pool, picks[i..]) == Selection(s, picks)
    {
      SelectStep(s, picks, i, pool, a[..i]);
      var idx := picks[i];
      a[i] := pool[idx];
      assert a[..i + 1] == a[..i] + [pool[idx]];
      pool := RemoveAt(pool, idx);
    }
    r := a[..];
    assert a[..n] == r;
    SelectionAndPoolPartition(s, picks);
  }

  /** One iteration of SelectRandom's loop: drawing picks[i] from the pool
      the first i picks left keeps the loop's state in step with Selection
      and Pool. */
  lemma SelectStep<T>(s: seq<T>, picks: seq<int>, i: nat, pool: seq<T>, done: seq<T>)
    requires InRangePicks(|s|, picks) && i < |picks|
    requires |pool| == |s| - i && InRangePicks(|pool|, picks[i..])
    requires InRangePicks(|s|, picks[..i]) && pool == Pool(s, picks[..i])
    requires done + Selection(pool, picks[i..]) == Selection(s, picks)
    ensures var next := RemoveAt(pool, picks[i]);
      && InRangePicks(|next|, picks[i + 1..])
      && InRangePicks(|s|, picks[..i + 1]) && next == Pool(s, picks[..i + 1])
      && (done + [pool[picks[i]]]) + Selection(next, picks[i + 1..]) == Selection(s, picks)
  {
    PoolStep(s, picks, i);
    var q, next := picks[i..], RemoveAt(pool, picks[i]);
    assert q[0] == picks[i] && q[1..] == picks[i + 1..];
    var rest := Selection(next, picks[i + 1..]);
    assert Selection(pool, q) == [pool[picks[i]]] + rest;
    assert (done + [pool[picks[i]]]) + rest == done + ([pool[picks[i]]] + rest);
  }

  /** The backing array b of a slice of length len after
      append(s[:idx], s[idx+1:]...): the elements after idx move one place
      left, in place; the last live slot and the rest keep their values. */
  function Shifted<T>(b: seq<T>, idx: int, len: int): (r: seq<T>)
    requires 0 <= idx < len <= |b|
    ensures |r| == |b|
  {
    b[..idx] + b[idx + 1..len] + b[len - 1..]
  }

  /** After the shift the live part of the slice, one shorter, is the old
      live part without position idx. */
  lemma ShiftedLivePart<T>(b: seq<T>, idx: int, len: int)
    requires 0 <= idx < len <= |b|
    ensures Shifted(b, idx, len)[..len - 1] == RemoveAt(b[..len], idx)
  {
  }

  /** The backing array after every pick has been removed this way. */
  function Backing<T>(b: seq<T>, len: int, picks: seq<int>): (r: seq<T>)
    requires 0 <= len <= |b| && InRangePicks(len, picks)
    ensures |r| == |b|
    decreases |picks|
  {
    if picks == [] then b else Backing(Shifted(b, picks[0], len), len - 1, picks[1..])
  }

  /** The live part of the backing array is the pool the picks leave; only
      the caller, whose slice still spans the whole array, sees the rest. */
  lemma {:induction false} BackingLivePartIsPool<T>(b: seq<T>, len: int, picks: seq<int>)
    requires 0 <= len <= |b| && InRangePicks(len, picks)
    ensures Backing(b, len, picks)[..len - |picks|] == Pool(b[..len], picks)
    decreases |picks|
  {
    if picks != [] {
      var next := Shifted(b, picks[0], len);
      BackingLivePartIsPool(next, len - 1, picks[1..]);
      ShiftedLivePart(b, picks[0], len);
    }
  }

  /** Go's append(s[:idx], s[idx+1:len]...) on a slice of length len over the
      array s: the result fits in s's capacity, so the elements after idx are
      copied one place to the left within s itself. */
  method AppendOverTail<T>(s: array<T>, idx: int, len: int)
    requires 0 <= idx < len <= s.Length
    modifies s
    ensures s[..] == Shifted(old(s[..]), idx, len)
  {
    forall k | idx <= k < len - 1 {
      s[k] := s[k + 1];
    }
    assert s[..] == old(s[..idx]) + old(s[idx + 1..len]) + old(s[len - 1..]);
  }

  /** The state of SelectRandom as written after i iterations, started on
      the caller's array contents s0: cur is the backing array, done the
      results so far, len the length of the local slice. What is still to be
      selected and the final backing array follow from it by the remaining
      picks. */
  ghost predicate AsWrittenState<T>(s0: seq<T>, picks: seq<int>, i: int, cur: seq<T>, done: seq<T>, len: int) {
    && 0 <= i <= |picks| && InRangePicks(|s0|, picks)
    && |cur| == |s0| && len == |s0| - i && |done| == i
    && InRangePicks(len, picks[i..])
    && done + Selection(cur[..len], picks[i..]) == Selection(s0, picks)
    && Backing(cur, len, picks[i..]) == Backing(s0, |s0|, picks)
  }

  /** One iteration: r[i] = s[idx], then the shift. */
  lemma AsWrittenAdvance<T>(s0: seq<T>, picks: seq<int>, i: int, cur: seq<T>, done: seq<T>, len: int)
    requires AsWrittenState(s0, picks, i, cur, done, len) && i < |picks|
    ensures 0 <= picks[i] < len
    ensures AsWrittenState(s0, picks, i + 1, Shifted(cur, picks[i], len), done + [cur[picks[i]]], len - 1)
  {
    var rest := picks[i..];
    assert rest[0] == picks[i] && rest[1..] == picks[i + 1..];
    assert cur[..len][rest[0]] == cur[picks[i]];
    ShiftedLivePart(cur, picks[i], len);
  }

  /** After the last iteration the results are the selection and the backing
      array is the one the picks produce. */
  lemma AsWrittenDone<T>(s0: seq<T>, picks: seq<int>, cur: seq<T>, done: seq<T>)
    requires AsWrittenState(s0, picks, |picks|, cur, done, |s0| - |picks|)
    ensures done == Selection(s0, picks) && cur == Backing(s0, |s0|, picks)
  {
    assert picks[|picks|..] == [];
  }

  /** The backing array and the results after i iterations of SelectRandom
      as written, run on the caller's array contents s0. */
  function AsWrittenRun<T>(s0: seq<T>, picks: seq<int>, i: int): (res: (seq<T>, seq<T>))
    requires InRangePicks(|s0|, picks) && 0 <= i <= |picks|
    ensures |res.0| == |s0| && |res.1| == i
  {
    if i == 0 then (s0, [])
    else
      var prev := AsWrittenRun(s0, picks, i - 1);
      var idx, len := picks[i - 1], |s0| - (i - 1);
      (Shifted(prev.0, idx, len), prev.1 + [prev.0[idx]])
  }

  /** One more iteration of the run keeps the loop state. */
  lemma {:induction false} AsWrittenRunStep<T>(s0: seq<T>, picks: seq<int>, i: int)
    requires InRangePicks(|s0|, picks) && 0 < i <= |picks|
    ensures AsWrittenState(s0, picks, i, AsWrittenRun(s0, picks, i).0, AsWrittenRun(s0, picks, i).1, |s0| - i)
    decreases i, 0
  {
    AsWrittenRunState(s0, picks, i - 1);
    var prev := AsWrittenRun(s0, picks, i - 1);
    var idx, len := picks[i - 1], |s0| - (i - 1);
    AsWrittenAdvance(s0, picks, i - 1, prev.0, prev.1, len);
    assert AsWrittenRun(s0, picks, i) == (Shifted(prev.0, idx, len), prev.1 + [prev.0[idx]]);
  }

  /** Every run keeps the loop state described by AsWrittenState. */
  lemma {:induction false} AsWrittenRunState<T>(s0: seq<T>, picks: seq<int>, i: int)
    requires InRangePicks(|s0|, picks) && 0 <= i <= |picks|
    ensures AsWrittenState(s0, picks, i, AsWrittenRun(s0, picks, i).0, AsWrittenRun(s0, picks, i).1, |s0| - i)
    decreases i, 1
  {
    if i == 0 {
      assert s0[..|s0|] == s0 && picks[0..] == picks;
    } else {
      AsWrittenRunStep(s0, picks, i);
    }
  }

  /** SelectRandom as written: the slice s shares its backing array with the
      caller, and append(s[:idx], s[idx+1:]...) writes into that array. The
      selection is right, but the caller's slice is rearranged. */
  method SelectRandomAsWritten<T(0)>(s: array<T>, n: int, picks: seq<int>) returns (r: seq<T>)
    requires n >= 0
    requires s.Length > n ==> |picks| == n && InRangePicks(s.Length, picks)
    modifies s
    ensures s.Length <= n ==> r == old(s[..]) && s[..] == old(s[..])
    ensures s.Length > n ==> r == Selection(old(s[..]), picks)
    ensures s.Length > n ==> s[..] == Backing(old(s[..]), s.Length, picks)
  {
    if s.Length <= n {
      return s[..];
    }
    ghost var s0 := s[..];
    r := SelectLoop(s, n, picks);
    AsWrittenRunState(s0, picks, n);
    AsWrittenDone(s0, picks, s[..], r);
  }

  /** The loop of SelectRandom as written, on the caller's array. */
  method SelectLoop<T(0)>(s: array<T>, n: int, picks: seq<int>) returns (r: seq<T>)
    requires 0 <= n < s.Length && |picks| == n && InRangePicks(s.Length, picks)
    modifies s
    ensures s[..] == AsWrittenRun(old(s[..]), picks, n).0
    ensures r == AsWrittenRun(old(s[..]), picks, n).1
  {
    ghost var s0 := s[..];
    var a := new T[n];  // make([]T, n): zero-filled
    r := a[..];
    var len := s.Length;  // the length of the local slice header
    for i := 0 to n
      invariant |r| == n && len == s.Length - i
      invariant s[..] == AsWrittenRun(s0, picks, i).0
      invariant r[..i] == AsWrittenRun(s0, picks, i).1
    {
      var idx := picks[i];
      ghost var cur, done := s[..], r[..i];
      ghost var next := AsWrittenRun(s0, picks, i + 1);
      assert next.0 == Shifted(cur, idx, len) && next.1 == done + [cur[idx]];
      r := r[i := s[idx]];
      assert r[..i + 1] == done + [cur[idx]];
      AppendOverTail(s, idx, len);
      len := len - 1;
    }
    assert r[..n] == r;
  }

  /** The caller's slice ["a", "b", "c", "bc"] of fns_test.go after a call
      whose two picks are both 0 reads ["c", "bc", "bc", "bc"]; a later call on
      it with picks 1, 1 returns "bc" twice, an element the original slice
      holds once. */
  lemma SelectRandomClobbersCallerSlice()
    ensures Backing(["a", "b", "c", "bc"], 4, [0, 0]) == ["c", "bc", "bc", "bc"]
    ensures Selection(["c", "bc", "bc", "bc"], [1, 1]) == ["bc", "bc"]
  {
    var b0: seq<string> := ["a", "b", "c", "bc"];
    var b1: seq<string> := ["b", "c", "bc", "bc"];
    var b2: seq<string> := ["c", "bc", "bc", "bc"];
    assert Shifted(b0, 0, 4) == b1;
    assert Shifted(b1, 0, 3) == b2;
    assert Backing(b0, 4, [0, 0]) == Backing(b1, 3, [0]) == Backing(b2, 2, []);
    assert RemoveAt(b2, 1) == ["c", "bc", "bc"];
    assert Selection(b2, [1, 1]) == ["bc"] + Selection(["c", "bc", "bc"], [1]);
  }
}
