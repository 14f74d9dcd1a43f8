/**
 Whole runs of the repeat-suppression table, as sequences of requests (a key and its data time).
 The bounded, evicting table is compared with one that never forgets.
 */
module Suppression {
  import opened Monitor

  datatype Request = Request(key: Key, now: int)

  /** The table after a run that starts empty. */
  function TableAfter(window: int, reqs: seq<Request>): Table {
    if reqs == [] then map[]
    else
      var r := reqs[|reqs| - 1];
      Remember(window, TableAfter(window, reqs[..|reqs| - 1]), r.key, r.now)
  }

  /** Request i of the run is suppressed. */
  predicate SuppressedAt(window: int, reqs: seq<Request>, i: nat)
    requires i < |reqs|
  {
    Repeats(window, TableAfter(window, reqs[..i]), reqs[i].key, reqs[i].now)
  }

  /** The table that never evicts. */
  function FullTable(window: int, reqs: seq<Request>): Table {
    if reqs == [] then map[]
    else
      var t := FullTable(window, reqs[..|reqs| - 1]);
      var r := reqs[|reqs| - 1];
      if window <= 0 || Repeats(window, t, r.key, r.now) then t else t[r.key := r.now]
  }

  predicate SuppressedByFull(window: int, reqs: seq<Request>, i: nat)
    requires i < |reqs|
  {
    Repeats(window, FullTable(window, reqs[..i]), reqs[i].key, reqs[i].now)
  }

  // ---- Bounded memory ----

  lemma RememberStaysBounded(window: int, table: Table, key: Key, now: int)
    requires |table| <= 100_000
    ensures |Remember(window, table, key, now)| <= 100_000
  {
    var room := MakeRoom(window, table, now);
    assert room[key := now].Keys == room.Keys + {key};
  }

  lemma {:induction false} TableStaysBounded(window: int, reqs: seq<Request>)
    ensures |TableAfter(window, reqs)| <= 100_000
  {
    if reqs != [] {
      var r := reqs[|reqs| - 1];
      TableStaysBounded(window, reqs[..|reqs| - 1]);
      RememberStaysBounded(window, TableAfter(window, reqs[..|reqs| - 1]), r.key, r.now);
    }
  }

  // ---- Nothing is lost silently ----

  /** Request j was emitted with this key at this time. */
  predicate EmittedAt(window: int, reqs: seq<Request>, j: nat, key: Key, time: int) {
    j < |reqs| && reqs[j] == Request(key, time) && !SuppressedAt(window, reqs, j)
  }

  lemma EmittedInPrefix(window: int, reqs: seq<Request>, n: nat, j: nat, key: Key, time: int)
    requires n <= |reqs| && EmittedAt(window, reqs[..n], j, key, time)
    ensures EmittedAt(window, reqs, j, key, time)
  {
    assert reqs[..n][..j] == reqs[..j];
  }

  /** Every time in the table is the time of a request that was emitted. */
  lemma {:induction false} TableHoldsEmissions(window: int, reqs: seq<Request>, key: Key) returns (j: nat)
    requires key in TableAfter(window, reqs)
    ensures EmittedAt(window, reqs, j, key, TableAfter(window, reqs)[key])
  {
    var n := |reqs| - 1;
    var r := reqs[n];
    var before := TableAfter(window, reqs[..n]);
    if window > 0 && !Repeats(window, before, r.key, r.now) && key == r.key {
      j := n;
    } else {
      j := TableHoldsEmissions(window, reqs[..n], key);
      EmittedInPrefix(window, reqs, n, j, key, before[key]);
    }
  }

  /** In every run, in any order of times and through every eviction, a suppressed request repeats an
      earlier one that was emitted, at most now and less than a window before. */
  lemma SuppressedRepeatsEmitted(window: int, reqs: seq<Request>, i: nat)
    requires i < |reqs| && SuppressedAt(window, reqs, i)
    ensures exists j: nat, time ::
              j < i && EmittedAt(window, reqs, j, reqs[i].key, time) && 0 <= reqs[i].now - time < window
  {
    var time := TableAfter(window, reqs[..i])[reqs[i].key];
    var j := TableHoldsEmissions(window, reqs[..i], reqs[i].key);
    EmittedInPrefix(window, reqs, i, j, reqs[i].key, time);
  }

  // ---- Which emission counts ----

  /** Request j, before n, is the last one of this key that was emitted. */
  predicate LastEmission(window: int, reqs: seq<Request>, n: nat, key: Key, j: int) {
    && n <= |reqs| && 0 <= j < n && reqs[j].key == key && !SuppressedAt(window, reqs, j)
    && forall k :: j < k < n && reqs[k].key == key ==> SuppressedAt(window, reqs, k)
  }

  /** No request before n found the table full. */
  predicate NeverFull(window: int, reqs: seq<Request>, n: nat) {
    n <= |reqs| && forall i :: 0 <= i < n ==> |TableAfter(window, reqs[..i])| < 100_000
  }

  lemma TableStep(window: int, reqs: seq<Request>, n: nat)
    requires n < |reqs|
    ensures TableAfter(window, reqs[..n + 1])
         == Remember(window, TableAfter(window, reqs[..n]), reqs[n].key, reqs[n].now)
  {
    assert reqs[..n + 1][..n] == reqs[..n] && reqs[..n + 1][n] == reqs[n];
  }

  /** In every run, a remembered time is that of the last emission of its key, and unless the table was full,
      that emission is remembered. */
  lemma {:induction false} TableHoldsLastEmission(window: int, reqs: seq<Request>, n: nat, key: Key, j: int)
    requires window > 0 && LastEmission(window, reqs, n, key, j)
    ensures key in TableAfter(window, reqs[..n]) ==> TableAfter(window, reqs[..n])[key] == reqs[j].now
    ensures NeverFull(window, reqs, n) ==> key in TableAfter(window, reqs[..n])
    decreases n
  {
    TableStep(window, reqs, n - 1);
    if j < n - 1 {
      assert LastEmission(window, reqs, n - 1, key, j);
      TableHoldsLastEmission(window, reqs, n - 1, key, j);
    }
  }

  lemma {:induction false} RememberedWasEmitted(window: int, reqs: seq<Request>, n: nat, key: Key) returns (j: int)
    requires n <= |reqs| && key in TableAfter(window, reqs[..n])
    ensures LastEmission(window, reqs, n, key, j)
    decreases n
  {
    assert n > 0;
    TableStep(window, reqs, n - 1);
    if reqs[n - 1].key == key && !SuppressedAt(window, reqs, n - 1) {
      j := n - 1;
    } else {
      j := RememberedWasEmitted(window, reqs, n - 1, key);
    }
  }

  /** In any order of times: a request is suppressed if and only if the last emission of its key is at most
      now and less than a window before; only if, once the table has been full. */
  lemma SuppressedIffRecent(window: int, reqs: seq<Request>, i: nat)
    requires i < |reqs|
    ensures SuppressedAt(window, reqs, i) ==>
              exists j :: LastEmission(window, reqs, i, reqs[i].key, j) && 0 <= reqs[i].now - reqs[j].now < window
    ensures NeverFull(window, reqs, i) ==>
              (SuppressedAt(window, reqs, i) <==>
               exists j :: LastEmission(window, reqs, i, reqs[i].key, j) && 0 <= reqs[i].now - reqs[j].now < window)
  {
    var key := reqs[i].key;
    if SuppressedAt(window, reqs, i) {
      var j := RememberedWasEmitted(window, reqs, i, key);
      TableHoldsLastEmission(window, reqs, i, key, j);
    }
    if j :| LastEmission(window, reqs, i, key, j) && 0 <= reqs[i].now - reqs[j].now < window {
      TableHoldsLastEmission(window, reqs, i, key, j);
    }
  }

  // ---- The bounded table against the one that never forgets ----

  predicate Ordered(reqs: seq<Request>) {
    forall i, j :: 0 <= i < j < |reqs| ==> reqs[i].now <= reqs[j].now
  }

  /** Step i finds a full table with nothing expired, and clears it. */
  predicate ClearsAt(window: int, reqs: seq<Request>, i: nat)
    requires i < |reqs|
  {
    var before := TableAfter(window, reqs[..i]);
    && window > 0
    && !Repeats(window, before, reqs[i].key, reqs[i].now)
    && |before| >= 100_000
    && |Live(window, before, reqs[i].now)| >= 100_000
  }

  predicate NeverClears(window: int, reqs: seq<Request>) {
    forall i :: 0 <= i < |reqs| ==> !ClearsAt(window, reqs, i)
  }

  /** The bounded table is part of the full one, and what it lacks has expired by `now`. */
  ghost predicate Agrees(window: int, bounded: Table, full: Table, now: int) {
    && (forall k :: k in bounded ==> k in full && bounded[k] == full[k])
    && (forall k :: k in full ==> full[k] <= now)
    && (forall k :: k in full && k !in bounded ==> now - full[k] >= window)
  }

  lemma AgreeingTablesDecideAlike(window: int, bounded: Table, full: Table, now: int, r: Request)
    requires Agrees(window, bounded, full, now) && now <= r.now
    ensures Repeats(window, bounded, r.key, r.now) == Repeats(window, full, r.key, r.now)
  {
  }

  lemma PrefixFacts(window: int, reqs: seq<Request>, n: nat)
    requires n <= |reqs|
    ensures Ordered(reqs) ==> Ordered(reqs[..n])
    ensures NeverClears(window, reqs) ==> NeverClears(window, reqs[..n])
  {
    if NeverClears(window, reqs) {
      forall i | 0 <= i < n ensures !ClearsAt(window, reqs[..n], i) {
        assert reqs[..n][..i] == reqs[..i];
        assert !ClearsAt(window, reqs, i);
      }
    }
  }

  lemma {:induction false} TablesAgree(window: int, reqs: seq<Request>)
    requires reqs != [] && window > 0 && Ordered(reqs) && NeverClears(window, reqs)
    ensures Agrees(window, TableAfter(window, reqs), FullTable(window, reqs), reqs[|reqs| - 1].now)
  {
    var n := |reqs| - 1;
    var r := reqs[n];
    var bounded, full := TableAfter(window, reqs[..n]), FullTable(window, reqs[..n]);
    PrefixFacts(window, reqs, n);
    assert !ClearsAt(window, reqs, n);
    if n > 0 {
      TablesAgree(window, reqs[..n]);
      assert reqs[..n][n - 1] == reqs[n - 1];
      AgreeingTablesDecideAlike(window, bounded, full, reqs[n - 1].now, r);
    }
    assert Agrees(window, bounded, full, r.now);
    if !Repeats(window, bounded, r.key, r.now) {
      var room := MakeRoom(window, bounded, r.now);
      assert Agrees(window, room[r.key := r.now], full[r.key := r.now], r.now);
    }
  }

  /** The next request of an ordered run is decided alike by both tables. */
  predicate DecidedAlike(window: int, reqs: seq<Request>, r: Request) {
    Repeats(window, TableAfter(window, reqs), r.key, r.now) == Repeats(window, FullTable(window, reqs), r.key, r.now)
  }

  lemma NextDecidedAlike(window: int, reqs: seq<Request>, r: Request)
    requires Ordered(reqs + [r]) && NeverClears(window, reqs)
    ensures DecidedAlike(window, reqs, r)
  {
    if reqs != [] && window > 0 {
      assert (reqs + [r])[..|reqs|] == reqs;
      PrefixFacts(window, reqs + [r], |reqs|);
      assert (reqs + [r])[|reqs| - 1] == reqs[|reqs| - 1] && (reqs + [r])[|reqs|] == r;
      TablesAgree(window, reqs);
      AgreeingTablesDecideAlike(window, TableAfter(window, reqs), FullTable(window, reqs), reqs[|reqs| - 1].now, r);
    }
  }

  /** Over an ordered run that never clears, the bounded table decides every request as the full one
      does. */
  lemma BoundedRefinesFull(window: int, reqs: seq<Request>, i: nat)
    requires Ordered(reqs) && NeverClears(window, reqs) && i < |reqs|
    ensures SuppressedAt(window, reqs, i) == SuppressedByFull(window, reqs, i)
  {
    PrefixFacts(window, reqs, i);
    PrefixFacts(window, reqs, i + 1);
    assert reqs[..i + 1] == reqs[..i] + [reqs[i]];
    NextDecidedAlike(window, reqs[..i], reqs[i]);
  }

  lemma SomeOtherKey(table: Table, key: Key) returns (other: Key)
    requires |table| >= 2
    ensures other in table && other != key
  {
    var rest := table.Keys - {key};
    if rest == {} {
      assert table.Keys <= {key};
      SubsetSize(table.Keys, {key});
    }
    other :| other in rest;
  }

  lemma {:induction false} SubsetSize(a: set<Key>, b: set<Key>)
    requires a <= b
    ensures |a| <= |b|
  {
    if a != {} {
      var x :| x in a;
      SubsetSize(a - {x}, b - {x});
    }
  }

  /** A clear forgets everything: right after it every live key but the one just emitted is emitted again,
      although the full table would suppress it. */
  lemma ClearForgetsAll(window: int, reqs: seq<Request>, i: nat, k: Key)
    requires Ordered(reqs) && i < |reqs| && NeverClears(window, reqs[..i]) && ClearsAt(window, reqs, i)
    requires k in Live(window, TableAfter(window, reqs[..i]), reqs[i].now) && k != reqs[i].key
    ensures !Repeats(window, TableAfter(window, reqs[..i + 1]), k, reqs[i].now)
    ensures Repeats(window, FullTable(window, reqs[..i + 1]), k, reqs[i].now)
  {
    var before, full := TableAfter(window, reqs[..i]), FullTable(window, reqs[..i]);
    var now := reqs[i].now;
    PrefixFacts(window, reqs, i);
    assert reqs[..i + 1][..i] == reqs[..i] && reqs[..i + 1][i] == reqs[i];
    assert TableAfter(window, reqs[..i + 1]) == map[][reqs[i].key := now];
    assert i > 0;
    TablesAgree(window, reqs[..i]);
    assert reqs[..i][i - 1] == reqs[i - 1];
    assert k in full && full[k] == before[k] && 0 <= now - full[k] < window;
  }

  /** A clear always shows: some next request is emitted that the full table would suppress. */
  lemma ClearShows(window: int, reqs: seq<Request>, i: nat) returns (r: Request)
    requires Ordered(reqs) && i < |reqs| && NeverClears(window, reqs[..i]) && ClearsAt(window, reqs, i)
    ensures Ordered(reqs[..i + 1] + [r]) && !DecidedAlike(window, reqs[..i + 1], r)
  {
    var k := SomeOtherKey(Live(window, TableAfter(window, reqs[..i]), reqs[i].now), reqs[i].key);
    ClearForgetsAll(window, reqs, i, k);
    r := Request(k, reqs[i].now);
    assert reqs[..i + 1][i] == reqs[i];
  }

  /** The exact condition: on an ordered run both tables decide every possible next request alike, at
      every point, if and only if the run never clears. */
  lemma AgreesIffNeverClears(window: int, reqs: seq<Request>)
    requires Ordered(reqs)
    ensures NeverClears(window, reqs)
       <==> forall n, r :: 0 <= n <= |reqs| && Ordered(reqs[..n] + [r]) ==> DecidedAlike(window, reqs[..n], r)
  {
    if NeverClears(window, reqs) {
      forall n, r | 0 <= n <= |reqs| && Ordered(reqs[..n] + [r]) ensures DecidedAlike(window, reqs[..n], r) {
        PrefixFacts(window, reqs, n);
        NextDecidedAlike(window, reqs[..n], r);
      }
    } else {
      var i := FirstClear(window, reqs);
      var r := ClearShows(window, reqs, i);
    }
  }

  lemma FirstClear(window: int, reqs: seq<Request>) returns (i: nat)
    requires !NeverClears(window, reqs)
    ensures i < |reqs| && ClearsAt(window, reqs, i) && NeverClears(window, reqs[..i])
  {
    i := 0;
    while !ClearsAt(window, reqs, i)
      invariant i < |reqs|
      invariant forall j :: 0 <= j < i ==> !ClearsAt(window, reqs, j)
      invariant exists j :: i <= j < |reqs| && ClearsAt(window, reqs, j)
      decreases |reqs| - i
    {
      i := i + 1;
    }
    forall j | 0 <= j < i ensures !ClearsAt(window, reqs[..i], j) {
      assert reqs[..i][..j] == reqs[..j] && reqs[..i][j] == reqs[j];
      assert !ClearsAt(window, reqs, j);
    }
  }

  // ---- What a clear costs ----

  function FloodKey(i: int): Key { Key("", RpkiInvalid, Asn(i)) }

  /** n anomalies at one time, no two alike. */
  function Flood(n: nat): (reqs: seq<Request>)
    ensures |reqs| == n && forall i :: 0 <= i < n ==> reqs[i] == Request(FloodKey(i), 0)
  {
    seq(n, i => Request(FloodKey(i), 0))
  }

  predicate InFlood(k: Key, n: int) { k.detail.Asn? && 0 <= k.detail.asn < n && k == FloodKey(k.detail.asn) }

  /** The table holds the first n anomalies of the flood, besides `others`. */
  ghost predicate Holds(table: Table, n: nat, others: set<Key>) {
    && (forall k :: k in table <==> InFlood(k, n) || k in others)
    && (forall k :: k in table ==> table[k] == 0)
  }

  lemma {:induction false} FloodKeys(keys: set<Key>, n: nat)
    requires forall k :: k in keys <==> InFlood(k, n)
    ensures |keys| == n
    decreases n
  {
    if n == 0 {
      assert keys == {};
    } else {
      var last := FloodKey(n - 1);
      assert InFlood(last, n);
      FloodKeys(keys - {last}, n - 1);
    }
  }

  lemma FloodSize(table: Table, n: nat, others: set<Key>)
    requires Holds(table, n, others) && forall k :: k in others ==> !InFlood(k, n)
    ensures |table| == n + |others|
  {
    FloodKeys(table.Keys - others, n);
    assert table.Keys == (table.Keys - others) + others;
  }

  lemma FloodPrefix(n: nat, m: nat)
    requires m <= n
    ensures Flood(n)[..m] == Flood(m)
  {
  }

  /** Up to the bound, a flood is remembered whole, by both tables. */
  lemma {:induction false} FloodFills(window: int, n: nat)
    requires window > 0 && n <= 100_000
    ensures Holds(TableAfter(window, Flood(n)), n, {}) && |TableAfter(window, Flood(n))| == n
  {
    if n > 0 {
      FloodFills(window, n - 1);
      FloodPrefix(n, n - 1);
      assert Flood(n)[n - 1] == Request(FloodKey(n - 1), 0) && !InFlood(FloodKey(n - 1), n - 1);
    }
    FloodSize(TableAfter(window, Flood(n)), n, {});
  }

  /** The first anomaly past the bound clears the table, which then holds nothing else. */
  lemma FloodClears(window: int, n: nat)
    requires window > 0 && n == 100_000
    ensures ClearsAt(window, Flood(n + 1), n)
    ensures TableAfter(window, Flood(n + 1)) == map[FloodKey(n) := 0]
  {
    FloodFills(window, n);
    FloodPrefix(n + 1, n);
    var table := TableAfter(window, Flood(n));
    assert Live(window, table, 0) == table;
    assert Flood(n + 1)[n] == Request(FloodKey(n), 0) && !InFlood(FloodKey(n), n);
  }

  /** The run that floods the table past its bound and then repeats what it had shown. */
  function Relapse(n: nat, j: nat): (reqs: seq<Request>)
    ensures |reqs| == n + 1 + j
  {
    Flood(n + 1) + Flood(j)
  }

  lemma RelapsePrefix(n: nat, j: nat)
    requires j > 0
    ensures Relapse(n, j)[..n + j] == Relapse(n, j - 1) && Relapse(n, j)[n + j] == Request(FloodKey(j - 1), 0)
  {
    FloodPrefix(j, j - 1);
    assert Relapse(n, j)[..n + j] == Flood(n + 1) + Flood(j)[..j - 1];
  }

  lemma {:induction false} RelapseFills(window: int, n: nat, j: nat)
    requires window > 0 && n == 100_000 && j < n
    ensures Holds(TableAfter(window, Relapse(n, j)), j, {FloodKey(n)})
    decreases j
  {
    if j == 0 {
      FloodClears(window, n);
      assert Relapse(n, 0) == Flood(n + 1);
    } else {
      RelapseFills(window, n, j - 1);
      RelapsePrefix(n, j);
      FloodSize(TableAfter(window, Relapse(n, j - 1)), j - 1, {FloodKey(n)});
      assert !InFlood(FloodKey(j - 1), j - 1) && FloodKey(j - 1) != FloodKey(n);
    }
  }

  /** The full table remembers all of it. */
  lemma {:induction false} FullFlood(window: int, n: nat)
    requires window > 0
    ensures Holds(FullTable(window, Flood(n)), n, {})
  {
    if n > 0 {
      FullFlood(window, n - 1);
      FloodPrefix(n, n - 1);
      assert Flood(n)[n - 1] == Request(FloodKey(n - 1), 0);
    }
  }

  lemma {:induction false} FullRelapse(window: int, n: nat, j: nat)
    requires window > 0 && j <= n
    ensures Holds(FullTable(window, Relapse(n, j)), n + 1, {})
    decreases j
  {
    if j == 0 {
      assert Relapse(n, 0) == Flood(n + 1);
      FullFlood(window, n + 1);
    } else {
      RelapsePrefix(n, j);
      FullRelapse(window, n, j - 1);
      assert InFlood(FloodKey(j - 1), n + 1);
    }
  }

  /** One clear costs as many extra events as the table holds keys: after a flood that clears it, each of
      the first 100000 anomalies is emitted a second time at the same moment, although a table that never
      evicts suppresses all of them. */
  lemma ClearCostsAllKeys(window: int, n: nat, j: nat)
    requires window > 0 && n == 100_000 && j < n
    ensures Relapse(n, n)[n + 1 + j] == Request(FloodKey(j), 0)
    ensures !SuppressedAt(window, Relapse(n, n), n + 1 + j) && SuppressedByFull(window, Relapse(n, n), n + 1 + j)
  {
    FloodPrefix(n, j);
    assert Relapse(n, n)[..n + 1 + j] == Flood(n + 1) + Flood(n)[..j];
    RelapseFills(window, n, j);
    assert !InFlood(FloodKey(j), j) && FloodKey(j) != FloodKey(n);
    FullRelapse(window, n, j);
    assert InFlood(FloodKey(j), n + 1);
  }

  // ---- Spacing ----

  lemma {:induction false} FullTableHoldsLast(window: int, reqs: seq<Request>, i: nat)
    requires Ordered(reqs) && window > 0 && i < |reqs| && !SuppressedByFull(window, reqs, i)
    ensures var t := FullTable(window, reqs);
            reqs[i].key in t && reqs[i].now <= t[reqs[i].key] <= reqs[|reqs| - 1].now
  {
    var n := |reqs| - 1;
    PrefixFacts(window, reqs, n);
    if i < n {
      assert reqs[..n][..i] == reqs[..i] && reqs[..n][i] == reqs[i];
      FullTableHoldsLast(window, reqs[..n], i);
      assert reqs[..n][n - 1] == reqs[n - 1];
    }
  }

  /** On an ordered run that never clears, two emissions of one key are at least a window apart. */
  lemma EmissionsAreSpaced(window: int, reqs: seq<Request>, i: nat, j: nat)
    requires Ordered(reqs) && NeverClears(window, reqs) && window > 0
    requires i < j < |reqs| && reqs[i].key == reqs[j].key
    requires !SuppressedAt(window, reqs, i) && !SuppressedAt(window, reqs, j)
    ensures reqs[j].now - reqs[i].now >= window
  {
    BoundedRefinesFull(window, reqs, i);
    BoundedRefinesFull(window, reqs, j);
    PrefixFacts(window, reqs, j);
    assert reqs[..j][..i] == reqs[..i] && reqs[..j][i] == reqs[i];
    FullTableHoldsLast(window, reqs[..j], i);
    assert reqs[..j][j - 1] == reqs[j - 1];
  }
}
