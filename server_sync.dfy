/** dom-manipulation/script2.js: a simulated server holding an array of quotes, the
    upsert `postQuoteToServer`, and `syncQuotes`, which merges the locally stored quotes
    with a server snapshot by id (a newer server copy wins) and uploads the quotes the
    server does not have. The one-second delays are dropped: each call runs to completion
    before the next. */
module ServerSync {
  import opened Collections

  /** A quote as this script keeps it, locally and on the server. `updatedAt` is a
      millisecond timestamp; it is absent from quotes that never went through the server,
      such as those `addQuote` creates. */
  datatype SyncQuote = SyncQuote(id: int, text: string, category: string, author: string, updatedAt: Option<int>)

  function Ids(qs: seq<SyncQuote>): (ids: seq<int>)
    ensures |ids| == |qs| && forall i :: 0 <= i < |qs| ==> ids[i] == qs[i].id
  {
    seq(|qs|, i requires 0 <= i < |qs| => qs[i].id)
  }

  lemma IdsAppend(a: seq<SyncQuote>, b: seq<SyncQuote>)
    ensures Ids(a + b) == Ids(a) + Ids(b)
  {
  }

  lemma IdsTail(m: seq<SyncQuote>)
    requires m != []
    ensures Ids(m) == [m[0].id] + Ids(m[1..])
  {
  }

  // ---------------------------------------------------------------- JavaScript Map keyed by id

  /* A `Map` from id to quote, as built by `new Map(list.map(q => [q.id, q]))`, is a
     sequence of quotes with distinct ids in the Map's insertion order; each quote is
     stored under its own id. */

  /** `map.get(id)`. */
  function Lookup(m: seq<SyncQuote>, id: int): (r: Option<SyncQuote>)
    ensures r.Some? ==> r.value in m && r.value.id == id
    ensures r.None? <==> id !in Ids(m)
  {
    if m == [] then None
    else
      IdsTail(m);
      if m[0].id == id then Some(m[0]) else Lookup(m[1..], id)
  }

  /** `map.set(q.id, q)`: an existing key keeps its position and takes the new value; a new
      key goes last. */
  function Put(m: seq<SyncQuote>, q: SyncQuote): (r: seq<SyncQuote>)
    ensures |m| <= |r| <= |m| + 1
  {
    if m == [] then [q]
    else if m[0].id == q.id then [q] + m[1..]
    else [m[0]] + Put(m[1..], q)
  }

  /** After `set`, the key's value is the new one and every other key reads as before. */
  lemma {:induction false} PutLookup(m: seq<SyncQuote>, q: SyncQuote, id: int)
    ensures Lookup(Put(m, q), id) == if id == q.id then Some(q) else Lookup(m, id)
  {
    if m != [] && m[0].id != q.id {
      PutLookup(m[1..], q, id);
    }
  }

  /** `set` keeps the key order and appends a new key. */
  lemma {:induction false} PutIds(m: seq<SyncQuote>, q: SyncQuote)
    ensures Ids(Put(m, q)) == if q.id in Ids(m) then Ids(m) else Ids(m) + [q.id]
  {
    if m != [] {
      IdsTail(m);
      IdsTail(Put(m, q));
      if m[0].id != q.id {
        PutIds(m[1..], q);
      }
    }
  }

  /** `new Map(qs.map(q => [q.id, q]))`: the entries of `qs` set one after the other. */
  function FromList(qs: seq<SyncQuote>): (m: seq<SyncQuote>)
    ensures |m| <= |qs|
  {
    if qs == [] then [] else Put(FromList(qs[..|qs| - 1]), qs[|qs| - 1])
  }

  /** The last entry of `qs` with the given id. */
  function LastWithId(qs: seq<SyncQuote>, id: int): Option<SyncQuote> {
    if qs == [] then None
    else if qs[|qs| - 1].id == id then Some(qs[|qs| - 1])
    else LastWithId(qs[..|qs| - 1], id)
  }

  /** Building a Map from a list keeps each id once, in order of first occurrence. */
  lemma {:induction false} FromListIds(qs: seq<SyncQuote>)
    ensures Ids(FromList(qs)) == Dedup(Ids(qs))
  {
    if qs != [] {
      var init, last := qs[..|qs| - 1], qs[|qs| - 1];
      FromListIds(init);
      PutIds(FromList(init), last);
      assert Ids(qs)[..|qs| - 1] == Ids(init);
    }
  }

  /** So no id occurs twice in a Map. */
  lemma FromListDistinct(qs: seq<SyncQuote>)
    ensures Distinct(Ids(FromList(qs)))
  {
    FromListIds(qs);
    DedupDistinct(Ids(qs));
  }

  /** Each id of a Map built from a list holds the value of its last occurrence. */
  lemma {:induction false} FromListLookup(qs: seq<SyncQuote>, id: int)
    ensures Lookup(FromList(qs), id) == LastWithId(qs, id)
  {
    if qs != [] {
      var init, last := qs[..|qs| - 1], qs[|qs| - 1];
      FromListLookup(init, id);
      PutLookup(FromList(init), last, id);
    }
  }

  /** A list whose ids are already distinct is its own Map. */
  lemma {:induction false} FromListOfDistinct(qs: seq<SyncQuote>)
    requires Distinct(Ids(qs))
    ensures FromList(qs) == qs
  {
    if qs != [] {
      var init, last := qs[..|qs| - 1], qs[|qs| - 1];
      assert Ids(init) == Ids(qs)[..|qs| - 1];
      FromListOfDistinct(init);
      assert last.id !in Ids(init);
      PutAppends(init, last);
      assert init + [last] == qs;
    }
  }

  lemma {:induction false} PutAppends(m: seq<SyncQuote>, q: SyncQuote)
    requires q.id !in Ids(m)
    ensures Put(m, q) == m + [q]
  {
    if m != [] {
      IdsTail(m);
      PutAppends(m[1..], q);
      assert [m[0]] + (m[1..] + [q]) == m + [q];
    }
  }

  // ---------------------------------------------------------------- syncQuotes: the merge

  /** `a > b` on two timestamps, either of which may be `undefined`: a comparison with
      `undefined` is false. */
  predicate Newer(a: Option<int>, b: Option<int>) {
    a.Some? && b.Some? && a.value > b.value
  }

  /** Whether the `forEach` over the server Map replaces or adds the local entry for `s`:
      the id is missing locally, or the server copy is strictly newer. */
  predicate ServerWins(m: seq<SyncQuote>, s: SyncQuote) {
    Lookup(m, s.id).None? || Newer(s.updatedAt, Lookup(m, s.id).value.updatedAt)
  }

  /** One step of the `forEach`. */
  function MergeStep(m: seq<SyncQuote>, s: SyncQuote): seq<SyncQuote> {
    if ServerWins(m, s) then Put(m, s) else m
  }

  /** The local Map after the whole `forEach` over the server Map `ss`. */
  function Merge(m: seq<SyncQuote>, ss: seq<SyncQuote>): (r: seq<SyncQuote>)
    ensures |m| <= |r|
  {
    if ss == [] then m else MergeStep(Merge(m, ss[..|ss| - 1]), ss[|ss| - 1])
  }

  /** Last-writer-wins for one id: the server copy when the id is only on the server or
      the server copy is strictly newer, the local copy otherwise. */
  function Winner(local: Option<SyncQuote>, server: Option<SyncQuote>): Option<SyncQuote> {
    match (local, server)
    case (_, None) => local
    case (None, Some(s)) => server
    case (Some(l), Some(s)) => if Newer(s.updatedAt, l.updatedAt) then server else local
  }

  lemma IdsPrefix(ss: seq<SyncQuote>, n: nat)
    requires n <= |ss| && Distinct(Ids(ss))
    ensures Ids(ss[..n]) == Ids(ss)[..n] && Distinct(Ids(ss[..n]))
  {
  }

  lemma SplitLast(ss: seq<SyncQuote>)
    requires ss != [] && Distinct(Ids(ss))
    ensures var init, last := ss[..|ss| - 1], ss[|ss| - 1];
      && Ids(ss) == Ids(init) + [last.id]
      && Distinct(Ids(init))
      && last.id !in Ids(init)
  {
  }

  lemma LookupPrefix(ss: seq<SyncQuote>, id: int)
    requires ss != [] && Distinct(Ids(ss))
    ensures var init, last := ss[..|ss| - 1], ss[|ss| - 1];
      && Distinct(Ids(init))
      && last.id !in Ids(init)
      && Lookup(ss, id) == if id == last.id then Some(last) else Lookup(init, id)
  {
    var init, last := ss[..|ss| - 1], ss[|ss| - 1];
    assert ss == init + [last];
    IdsAppend(init, [last]);
    LookupAppend(init, last, id);
  }

  lemma {:induction false} LookupAppend(m: seq<SyncQuote>, q: SyncQuote, id: int)
    ensures Lookup(m + [q], id) == if id in Ids(m) then Lookup(m, id) else if q.id == id then Some(q) else None
  {
    if m != [] {
      IdsTail(m);
      assert (m + [q])[1..] == m[1..] + [q];
      LookupAppend(m[1..], q, id);
    }
  }

  /** After the merge, every id reads as the winner of its local and server copies. */
  lemma {:induction false} MergeLookup(m: seq<SyncQuote>, ss: seq<SyncQuote>, id: int)
    requires Distinct(Ids(ss))
    ensures Lookup(Merge(m, ss), id) == Winner(Lookup(m, id), Lookup(ss, id))
  {
    if ss != [] {
      var init, last := ss[..|ss| - 1], ss[|ss| - 1];
      LookupPrefix(ss, id);
      MergeLookup(m, init, id);
      MergeLookup(m, init, last.id);
      PutLookup(Merge(m, init), last, id);
    }
  }

  /** The test "this id is not among `ids`". */
  function NotIn(ids: seq<int>): int -> bool {
    (id: int) => id !in ids
  }

  lemma MergeStepIds(merged: seq<SyncQuote>, s: SyncQuote, ids: seq<int>)
    requires s.id in Ids(merged) <==> s.id in ids
    ensures Ids(MergeStep(merged, s)) == Ids(merged) + Filter([s.id], NotIn(ids))
  {
    PutIds(merged, s);
    assert Filter([s.id], NotIn(ids)) == (if s.id in ids then [] else [s.id]);
  }

  /** The merged Map lists the local ids in their order, then the ids only the server
      has, in server order. */
  lemma {:induction false} MergeIds(m: seq<SyncQuote>, ss: seq<SyncQuote>)
    requires Distinct(Ids(ss))
    ensures Ids(Merge(m, ss)) == Ids(m) + Filter(Ids(ss), NotIn(Ids(m)))
  {
    if ss != [] {
      var init, last := ss[..|ss| - 1], ss[|ss| - 1];
      var p := NotIn(Ids(m));
      SplitLast(ss);
      MergeIds(m, init);
      FilterConcat(Ids(init), [last.id], p);
      FilterMembership(Ids(init), p, last.id);
      MergeStepIds(Merge(m, init), last, Ids(m));
    }
  }

  /** The ids of the merged Map are exactly the union of the local and the server ids. */
  lemma MergeIdsUnion(m: seq<SyncQuote>, ss: seq<SyncQuote>)
    requires Distinct(Ids(ss))
    ensures forall id :: id in Ids(Merge(m, ss)) <==> id in Ids(m) || id in Ids(ss)
  {
    MergeIds(m, ss);
    FilterMembershipAll(Ids(ss), NotIn(Ids(m)));
  }

  /** A merge in which the server wins nowhere changes nothing. */
  lemma {:induction false} MergeWithoutChanges(m: seq<SyncQuote>, ss: seq<SyncQuote>)
    requires Distinct(Ids(ss))
    requires forall i :: 0 <= i < |ss| ==> !ServerWins(m, ss[i])
    ensures Merge(m, ss) == m
  {
    if ss != [] {
      var init, last := ss[..|ss| - 1], ss[|ss| - 1];
      LookupPrefix(ss, last.id);
      MergeWithoutChanges(m, init);
    }
  }

  /** Whether the server wins for some entry of `ss`: the `updated` flag of the merge. */
  predicate AnyServerWins(m: seq<SyncQuote>, ss: seq<SyncQuote>) {
    exists i :: 0 <= i < |ss| && ServerWins(m, ss[i])
  }

  /** One more server entry is one more merge step, and whether it wins is decided
      against the local Map as it was before the merge, the server ids being distinct. */
  lemma MergePrefixStep(m: seq<SyncQuote>, ss: seq<SyncQuote>, i: nat)
    requires Distinct(Ids(ss)) && i < |ss|
    ensures Merge(m, ss[..i + 1]) == MergeStep(Merge(m, ss[..i]), ss[i])
    ensures ServerWins(Merge(m, ss[..i]), ss[i]) <==> ServerWins(m, ss[i])
  {
    IdsPrefix(ss, i + 1);
    assert ss[..i + 1][..i] == ss[..i];
    LookupPrefix(ss[..i + 1], ss[i].id);
    MergeLookup(m, ss[..i], ss[i].id);
  }

  lemma AnyServerWinsStep(m: seq<SyncQuote>, ss: seq<SyncQuote>, i: nat)
    requires i < |ss|
    ensures AnyServerWins(m, ss[..i + 1]) <==> AnyServerWins(m, ss[..i]) || ServerWins(m, ss[i])
  {
    if ServerWins(m, ss[i]) {
      assert ss[..i + 1][i] == ss[i];
    }
  }

  /** The `forEach` of `syncQuotes` over the server Map, with its `updated` flag. */
  method MergeServer(localMap: seq<SyncQuote>, serverMap: seq<SyncQuote>)
    returns (merged: seq<SyncQuote>, updated: bool)
    requires Distinct(Ids(serverMap))
    ensures merged == Merge(localMap, serverMap)
    ensures updated == AnyServerWins(localMap, serverMap)
  {
    merged, updated := localMap, false;
    var i := 0;
    while i < |serverMap|
      invariant 0 <= i <= |serverMap|
      invariant merged == Merge(localMap, serverMap[..i])
      invariant updated == AnyServerWins(localMap, serverMap[..i])
    {
      var s := serverMap[i];
      MergePrefixStep(localMap, serverMap, i);
      AnyServerWinsStep(localMap, serverMap, i);
      if Lookup(merged, s.id).None? || Newer(s.updatedAt, Lookup(merged, s.id).value.updatedAt) {
        merged := Put(merged, s);
        updated := true;
      }
      i := i + 1;
    }
    assert serverMap[..i] == serverMap;
  }

  // ---------------------------------------------------------------- syncQuotes: the uploads

  /** The test "this quote's id is not among `ids`". */
  function IdNotIn(ids: seq<int>): SyncQuote -> bool {
    (q: SyncQuote) => q.id !in ids
  }

  /** The entries of the merged Map that the loop over `localMap.entries()` posts: those
      whose id the server Map lacks, in Map order. */
  function Uploads(merged: seq<SyncQuote>, serverMap: seq<SyncQuote>): (r: seq<SyncQuote>)
    ensures |r| <= |merged|
  {
    Filter(merged, IdNotIn(Ids(serverMap)))
  }

  lemma {:induction false} FilterPutDropped(m: seq<SyncQuote>, q: SyncQuote, ids: seq<int>)
    requires q.id in ids
    ensures Filter(Put(m, q), IdNotIn(ids)) == Filter(m, IdNotIn(ids))
  {
    if m != [] && m[0].id != q.id {
      FilterPutDropped(m[1..], q, ids);
      assert Put(m, q) == [m[0]] + Put(m[1..], q);
    }
  }

  lemma {:induction false} MergeKeepsOthers(m: seq<SyncQuote>, ss: seq<SyncQuote>, ids: seq<int>)
    requires forall i :: 0 <= i < |ss| ==> ss[i].id in ids
    ensures Filter(Merge(m, ss), IdNotIn(ids)) == Filter(m, IdNotIn(ids))
  {
    if ss != [] {
      var init, last := ss[..|ss| - 1], ss[|ss| - 1];
      MergeKeepsOthers(m, init, ids);
      FilterPutDropped(Merge(m, init), last, ids);
    }
  }

  /** What is uploaded is exactly the local entries whose id is not on the server, in local
      order and unchanged by the merge; each is uploaded once. */
  lemma UploadsAreLocalOnly(m: seq<SyncQuote>, ss: seq<SyncQuote>)
    requires Distinct(Ids(m))
    ensures Uploads(Merge(m, ss), ss) == Filter(m, IdNotIn(Ids(ss)))
    ensures forall q :: q in Uploads(Merge(m, ss), ss) <==> q in m && q.id !in Ids(ss)
    ensures Distinct(Ids(Uploads(Merge(m, ss), ss)))
  {
    MergeKeepsOthers(m, ss, Ids(ss));
    FilterMembershipAll(m, IdNotIn(Ids(ss)));
    FilterIdsDistinct(m, IdNotIn(Ids(ss)));
  }

  lemma {:induction false} FilterIdsDistinct(m: seq<SyncQuote>, p: SyncQuote -> bool)
    requires Distinct(Ids(m))
    ensures Distinct(Ids(Filter(m, p)))
  {
    if m != [] {
      IdsTail(m);
      FilterIdsDistinct(m[1..], p);
      var rest := Filter(m[1..], p);
      assert m[0].id !in Ids(m[1..]);
      assert m[0].id !in Ids(rest) by {
        forall k | 0 <= k < |rest| ensures rest[k].id != m[0].id {
          assert rest[k] in m[1..];
        }
      }
      if p(m[0]) {
        IdsAppend([m[0]], rest);
      }
    }
  }

  lemma FilterPrefixStep(qs: seq<SyncQuote>, i: nat, p: SyncQuote -> bool)
    requires i < |qs|
    ensures Filter(qs[..i + 1], p) == Filter(qs[..i], p) + if p(qs[i]) then [qs[i]] else []
  {
    assert qs[..i + 1] == qs[..i] + [qs[i]];
    FilterConcat(qs[..i], [qs[i]], p);
  }

  /** The `updated` flag of `syncQuotes`. */
  predicate SyncUpdated(localMap: seq<SyncQuote>, serverMap: seq<SyncQuote>) {
    AnyServerWins(localMap, serverMap) || Uploads(Merge(localMap, serverMap), serverMap) != []
  }

  /** The server side of the flag: some server entry is missing locally or newer there. */
  lemma AnyServerWinsIff(m: seq<SyncQuote>, ss: seq<SyncQuote>)
    ensures AnyServerWins(m, ss) <==>
      exists s :: s in ss && (s.id !in Ids(m) || Newer(s.updatedAt, Lookup(m, s.id).value.updatedAt))
  {
    if AnyServerWins(m, ss) {
      var i :| 0 <= i < |ss| && ServerWins(m, ss[i]);
      assert ss[i] in ss;
    }
  }

  /** The upload side of the flag: something is posted exactly when some local id is
      missing on the server. */
  lemma UploadsNonEmptyIff(m: seq<SyncQuote>, ss: seq<SyncQuote>)
    requires Distinct(Ids(m))
    ensures Uploads(Merge(m, ss), ss) != [] <==> exists id :: id in Ids(m) && id !in Ids(ss)
  {
    MergeKeepsOthers(m, ss, Ids(ss));
    FilterEmptyIff(m, IdNotIn(Ids(ss)));
    if exists id :: id in Ids(m) && id !in Ids(ss) {
      var id :| id in Ids(m) && id !in Ids(ss);
      var i :| 0 <= i < |m| && m[i].id == id;
      assert IdNotIn(Ids(ss))(m[i]);
    }
  }

  /** The flag is set exactly when some server id is missing locally or newer there, or
      some local id is missing on the server. */
  lemma SyncUpdatedIff(m: seq<SyncQuote>, ss: seq<SyncQuote>)
    requires Distinct(Ids(m))
    ensures SyncUpdated(m, ss) <==>
      || (exists s :: s in ss && (s.id !in Ids(m) || Newer(s.updatedAt, Lookup(m, s.id).value.updatedAt)))
      || (exists id :: id in Ids(m) && id !in Ids(ss))
  {
    AnyServerWinsIff(m, ss);
    UploadsNonEmptyIff(m, ss);
  }

  /** When the flag stays false the merged Map equals the local list, so skipping the
      write loses nothing. */
  lemma NoUpdateMeansNoChange(local: seq<SyncQuote>, ss: seq<SyncQuote>)
    requires Distinct(Ids(local)) && Distinct(Ids(ss))
    requires !SyncUpdated(FromList(local), ss)
    ensures Merge(FromList(local), ss) == local
  {
    FromListOfDistinct(local);
    MergeWithoutChanges(local, ss);
  }

  // ---------------------------------------------------------------- the simulated server

  /** `postQuoteToServer` on the server array: replace the first entry with the same id,
      stamped `now`, or append a copy stamped `now` whose id is the old length plus one. */
  function Upserted(qs: seq<SyncQuote>, q: SyncQuote, now: int): (r: seq<SyncQuote>)
    ensures |qs| <= |r| <= |qs| + 1
  {
    match FindIndex(qs, q.id)
    case Some(i) => qs[i := q.(updatedAt := Some(now))]
    case None => qs + [q.(updatedAt := Some(now), id := |qs| + 1)]
  }

  /** `qs.findIndex(x => x.id === id)`, with `None` for -1. */
  function FindIndex(qs: seq<SyncQuote>, id: int): (r: Option<nat>)
    ensures r.Some? ==>
      r.value < |qs| && qs[r.value].id == id && forall j :: 0 <= j < r.value ==> qs[j].id != id
    ensures r.None? ==> forall j :: 0 <= j < |qs| ==> qs[j].id != id
  {
    if qs == [] then None
    else if qs[0].id == id then Some(0)
    else match FindIndex(qs[1..], id)
      case None => None
      case Some(i) => Some(i + 1)
  }

  /** Posting an id the server has rewrites that entry in place; any other id grows the
      array by one entry at the end. Nothing else changes. */
  lemma UpsertedSpec(qs: seq<SyncQuote>, q: SyncQuote, now: int)
    ensures q.id in Ids(qs) ==>
      var i := FindIndex(qs, q.id).value;
      var r := Upserted(qs, q, now);
      && |r| == |qs| && r[i] == q.(updatedAt := Some(now))
      && forall j :: 0 <= j < |qs| && j != i ==> r[j] == qs[j]
    ensures q.id !in Ids(qs) ==>
      Upserted(qs, q, now) == qs + [q.(updatedAt := Some(now), id := |qs| + 1)]
  {
    if q.id in Ids(qs) {
      var k :| 0 <= k < |qs| && qs[k].id == q.id;
    }
  }

  /** The ids of the server array are 1, 2, ..., n in order. */
  predicate SequentialIds(qs: seq<SyncQuote>) {
    forall i :: 0 <= i < |qs| ==> qs[i].id == i + 1
  }

  /** Upserts keep the server's ids sequential; then the id `length + 1` given to an
      appended entry is fresh. */
  lemma UpsertKeepsSequential(qs: seq<SyncQuote>, q: SyncQuote, now: int)
    requires SequentialIds(qs)
    ensures SequentialIds(Upserted(qs, q, now))
    ensures q.id !in Ids(qs) ==> |qs| + 1 !in Ids(qs)
  {
  }

  /** Without that invariant the appended id need not be fresh: an array holding only id 2
      gets a second id 2. */
  lemma AppendedIdNotFresh()
    ensures var qs := [SyncQuote(2, "a", "c", "x", None)];
      var r := Upserted(qs, SyncQuote(5, "b", "c", "y", None), 7);
      |r| == 2 && r[0].id == r[1].id == 2
  {
    var qs := [SyncQuote(2, "a", "c", "x", None)];
    assert FindIndex(qs, 5) == None;
  }

  /** The server array after posting `ups` in order, the k-th post stamped `clock(k)`. */
  function PostAll(qs: seq<SyncQuote>, ups: seq<SyncQuote>, clock: nat -> int): seq<SyncQuote> {
    if ups == [] then qs
    else Upserted(PostAll(qs, ups[..|ups| - 1], clock), ups[|ups| - 1], clock(|ups| - 1))
  }

  /** Every sequence of posts keeps the server's ids sequential. */
  lemma {:induction false} PostAllKeepsSequential(qs: seq<SyncQuote>, ups: seq<SyncQuote>, clock: nat -> int)
    requires SequentialIds(qs)
    ensures SequentialIds(PostAll(qs, ups, clock))
  {
    if ups != [] {
      PostAllKeepsSequential(qs, ups[..|ups| - 1], clock);
      UpsertKeepsSequential(PostAll(qs, ups[..|ups| - 1], clock), ups[|ups| - 1], clock(|ups| - 1));
    }
  }

  /** Sequential ids are distinct: the server's id `k` sits at index `k - 1`. */
  lemma SequentialIdsDistinct(qs: seq<SyncQuote>)
    requires SequentialIds(qs)
    ensures Distinct(Ids(qs))
    ensures forall id :: id in Ids(qs) <==> 1 <= id <= |qs|
  {
    forall id | 1 <= id <= |qs| ensures id in Ids(qs) {
      assert Ids(qs)[id - 1] == id;
    }
  }

  /** Each post adds at most one entry. */
  lemma {:induction false} PostAllLength(qs: seq<SyncQuote>, ups: seq<SyncQuote>, clock: nat -> int)
    ensures |PostAll(qs, ups, clock)| <= |qs| + |ups|
  {
    if ups != [] {
      PostAllLength(qs, ups[..|ups| - 1], clock);
    }
  }

  /** The server files a local-only quote under the id `length + 1`, not under its own.
      So a local-only quote whose id is not a server index within reach is posted, kept
      in the saved local list, and still missing on the server afterwards: the next sync
      posts it again. */
  lemma LocalOnlyQuoteStaysLocalOnly(local: seq<SyncQuote>, server: seq<SyncQuote>, q: SyncQuote, clock: nat -> int)
    requires SequentialIds(server)
    requires q in FromList(local) && q.id !in Ids(server)
    requires q.id < 1 || q.id > |server| + |local|
    ensures var serverMap := FromList(server);
      var merged := Merge(FromList(local), serverMap);
      var uploads := Uploads(merged, serverMap);
      && q in uploads
      && SyncUpdated(FromList(local), serverMap)
      && q in merged
      && q.id !in Ids(PostAll(server, uploads, clock))
  {
    var m := FromList(local);
    SequentialIdsDistinct(server);
    FromListOfDistinct(server);
    FromListDistinct(local);
    var merged := Merge(m, server);
    var uploads := Uploads(merged, server);
    UploadsAreLocalOnly(m, server);
    FilterMembershipAll(merged, IdNotIn(Ids(server)));
    assert |uploads| <= |m| by {
      assert uploads == Filter(m, IdNotIn(Ids(server)));
    }
    var after := PostAll(server, uploads, clock);
    PostAllKeepsSequential(server, uploads, clock);
    PostAllLength(server, uploads, clock);
    SequentialIdsDistinct(after);
  }

  /** The simulated server's `serverQuotes` array. */
  class ServerStub {
    var quotes: seq<SyncQuote>

    /** The two quotes the server starts with. */
    constructor ()
      ensures |quotes| == 2 && SequentialIds(quotes)
      ensures quotes[0].updatedAt == Some(1692265200000) && quotes[1].updatedAt == Some(1692351600000)
    {
      quotes := [
        SyncQuote(1, "Be yourself; everyone else is already taken.", "Motivation", "Oscar Wilde", Some(1692265200000)),
        SyncQuote(2, "The only way to do great work is to love what you do.", "Success", "Steve Jobs", Some(1692351600000))
      ];
    }

    /** `fetchServerQuotes`: a copy of the array. */
    method Fetch() returns (snapshot: seq<SyncQuote>)
      ensures snapshot == quotes
    {
      snapshot := quotes;
    }

    /** `postQuoteToServer(q)`, `now` standing for `Date.now()`. */
    method Post(q: SyncQuote, now: int)
      modifies this
      ensures quotes == Upserted(old(quotes), q, now)
    {
      var i := FindIndex(quotes, q.id);
      if i.Some? {
        quotes := quotes[i.value := q.(updatedAt := Some(now))];
      } else {
        quotes := quotes + [q.(updatedAt := Some(now), id := |quotes| + 1)];
      }
    }
  }

  /** The `quotes` entry of `localStorage`; an absent entry reads as the empty list. */
  class LocalStore {
    var saved: seq<SyncQuote>

    constructor ()
      ensures saved == []
    {
      saved := [];
    }
  }

  /** The loop of `syncQuotes` over the merged Map: every entry whose id the server Map
      lacks is posted, in Map order; `clock(k)` is `Date.now()` at the k-th post. */
  method UploadLocalOnly(server: ServerStub, merged: seq<SyncQuote>, serverMap: seq<SyncQuote>, clock: nat -> int)
    returns (posted: seq<SyncQuote>)
    modifies server
    ensures posted == Uploads(merged, serverMap)
    ensures server.quotes == PostAll(old(server.quotes), posted, clock)
  {
    var serverIds := Ids(serverMap);
    ghost var localOnly := IdNotIn(serverIds);
    posted := [];
    var i := 0;
    while i < |merged|
      invariant 0 <= i <= |merged|
      invariant posted == Filter(merged[..i], localOnly)
      invariant server.quotes == PostAll(old(server.quotes), posted, clock)
    {
      var q := merged[i];
      FilterPrefixStep(merged, i, localOnly);
      if q.id !in serverIds {
        server.Post(q, clock(|posted|));
        posted := posted + [q];
      }
      i := i + 1;
    }
    assert merged[..i] == merged;
  }

  /** `syncQuotes`: merge the stored quotes with a server snapshot, post the local-only
      ones, and write the merged list back only when something changed. `clock(k)` is
      `Date.now()` at the k-th post. */
  method SyncQuotes(store: LocalStore, server: ServerStub, clock: nat -> int) returns (updated: bool)
    modifies store, server
    ensures
      var localMap := FromList(old(store.saved));
      var serverMap := FromList(old(server.quotes));
      var merged := Merge(localMap, serverMap);
      && updated == SyncUpdated(localMap, serverMap)
      && server.quotes == PostAll(old(server.quotes), Uploads(merged, serverMap), clock)
      && store.saved == if updated then merged else old(store.saved)
  {
    var localQuotes := store.saved;
    var serverData := server.Fetch();
    var localMap := FromList(localQuotes);
    var serverMap := FromList(serverData);
    FromListDistinct(serverData);
    var merged, changed := MergeServer(localMap, serverMap);
    var posted := UploadLocalOnly(server, merged, serverMap, clock);
    updated := changed || posted != [];
    if updated {
      store.saved := merged;
    }
  }
}
