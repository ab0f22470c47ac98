// One tick of a source's processing callback, shared by every adapter. Each
// callback walks the candidates of one fetched document in document order and,
// for each, either skips it (`continue`), marks its key in the `seen` map and
// sends it on, or returns an error that ends the tick. Adapters differ only in
// what they decide for one candidate, which they supply as a `decide` function
// of the current seen-set; what has been sent before an error stays sent.

module Dedup {
  import opened Jobs

  /** What one candidate does to the tick. */
  datatype Visit<T> =
    | Skip                          // filtered out, or its key is already seen
    | Emit(key: string, out: T)     // `seen[key] = true`, then send `out`
    | Abort(mark: Option<string>)   // return an error; `mark` was put in seen first

  datatype Status = Done | Failed(mark: Option<string>)

  /** The state of a tick: what was sent, under which keys, the seen-set, and how it ended. */
  datatype Scan<T> = Scan(sent: seq<T>, keys: seq<string>, seen: set<string>, status: Status)

  function MarkSet(m: Option<string>): set<string> {
    if m.Some? then {m.value} else {}
  }

  /** The keys a failed tick put in seen without sending anything under them. */
  function Lost(status: Status): set<string> {
    if status.Failed? then MarkSet(status.mark) else {}
  }

  function Apply<T>(s: Scan<T>, v: Visit<T>): Scan<T> {
    match v
    case Skip => s
    case Emit(k, x) => Scan(s.sent + [x], s.keys + [k], s.seen + {k}, Done)
    case Abort(m) => Scan(s.sent, s.keys, s.seen + MarkSet(m), Failed(m))
  }

  /** The tick over `cs` from seen-set `seen`; after a failure nothing more happens. */
  function ScanSpec<C, T>(seen: set<string>, cs: seq<C>, decide: (set<string>, C) -> Visit<T>): Scan<T>
    decreases |cs|
  {
    if cs == [] then Scan([], [], seen, Done)
    else
      var s := ScanSpec(seen, cs[..|cs| - 1], decide);
      if s.status.Failed? then s else Apply(s, decide(s.seen, cs[|cs| - 1]))
  }

  /**
   * A decision function that looks at the seen-set before it sends: it never
   * emits, and never marks before failing, a key that is already seen.
   */
  ghost predicate ChecksSeen<C(!new), T>(decide: (set<string>, C) -> Visit<T>) {
    forall s: set<string>, c: C :: var v := decide(s, c);
      (v.Emit? ==> v.key !in s) && (v.Abort? && v.mark.Some? ==> v.mark.value !in s)
  }

  /** The loop of a tick callback, with an early return on the first error. */
  method RunScan<C, T>(seen0: set<string>, cs: seq<C>, decide: (set<string>, C) -> Visit<T>)
    returns (r: Scan<T>)
    ensures r == ScanSpec(seen0, cs, decide)
  {
    var seen, sent, keys := seen0, [], [];
    var i := 0;
    while i < |cs|
      invariant 0 <= i <= |cs|
      invariant ScanSpec(seen0, cs[..i], decide) == Scan(sent, keys, seen, Done)
    {
      assert cs[..i + 1][..i] == cs[..i];
      match decide(seen, cs[i]) {
        case Skip =>
        case Emit(k, x) =>
          seen := seen + {k};
          sent := sent + [x];
          keys := keys + [k];
        case Abort(m) =>
          seen := seen + MarkSet(m);
          StopsAtFailure(seen0, cs, i + 1, decide);
          return Scan(sent, keys, seen, Failed(m));
      }
      i := i + 1;
    }
    assert cs[..i] == cs;
    r := Scan(sent, keys, seen, Done);
  }

  /** Once a prefix of the document has failed the tick, the rest is never looked at. */
  lemma {:induction false} StopsAtFailure<C, T>(seen: set<string>, cs: seq<C>, i: nat, decide: (set<string>, C) -> Visit<T>)
    requires i <= |cs|
    requires ScanSpec(seen, cs[..i], decide).status.Failed?
    ensures ScanSpec(seen, cs, decide) == ScanSpec(seen, cs[..i], decide)
    decreases |cs| - i
  {
    if i < |cs| {
      var c := cs[..|cs| - 1];
      assert c[..i] == cs[..i];
      StopsAtFailure(seen, c, i, decide);
    } else {
      assert cs[..i] == cs;
    }
  }

  /**
   * At most once: the keys sent in one tick are distinct and none was seen
   * before; afterwards seen holds exactly the old keys, the sent keys and the
   * key a failure marked, and that marked key was neither seen nor sent.
   */
  lemma {:induction false} ScanFresh<C(!new), T>(seen: set<string>, cs: seq<C>, decide: (set<string>, C) -> Visit<T>)
    requires ChecksSeen(decide)
    ensures var r := ScanSpec(seen, cs, decide);
      && |r.sent| == |r.keys|
      && NoDup(r.keys)
      && (forall i :: 0 <= i < |r.keys| ==> r.keys[i] !in seen)
      && r.seen == seen + Elems(r.keys) + Lost(r.status)
      && Lost(r.status) !! seen + Elems(r.keys)
    decreases |cs|
  {
    if cs != [] {
      var s := ScanSpec(seen, cs[..|cs| - 1], decide);
      ScanFresh(seen, cs[..|cs| - 1], decide);
      if !s.status.Failed? {
        var v := decide(s.seen, cs[|cs| - 1]);
        assert Lost(s.status) == {};
        match v
        case Skip =>
        case Emit(k, x) =>
          assert Elems(s.keys + [k]) == Elems(s.keys) + {k};
        case Abort(m) =>
      }
    }
  }

  /** Every value a tick sends satisfies whatever every emitting decision promises of its value. */
  lemma {:induction false} ScanSentAll<C(!new), T>(seen: set<string>, cs: seq<C>, decide: (set<string>, C) -> Visit<T>, P: T -> bool)
    requires forall s: set<string>, c: C :: decide(s, c).Emit? ==> P(decide(s, c).out)
    ensures forall x :: x in ScanSpec(seen, cs, decide).sent ==> P(x)
    decreases |cs|
  {
    if cs != [] {
      ScanSentAll(seen, cs[..|cs| - 1], decide, P);
    }
  }

  /** `x`, sent under `key`, is `P`-related to some candidate of `cs`. */
  ghost predicate EmittedFrom<C(!new), T>(cs: seq<C>, key: string, x: T, P: (C, string, T) -> bool) {
    exists c :: c in cs && P(c, key, x)
  }

  /** Each value in `sent`, with the key at the same place in `keys`, is `P`-related to some candidate of `cs`. */
  ghost predicate EmittedBy<C(!new), T>(cs: seq<C>, keys: seq<string>, sent: seq<T>, P: (C, string, T) -> bool) {
    |keys| == |sent| && forall i :: 0 <= i < |sent| ==> EmittedFrom(cs, keys[i], sent[i], P)
  }

  /**
   * Every value a tick sends, with the key it was sent under, comes from one of
   * the tick's candidates: whatever an emitting decision promises about its
   * candidate, key and value holds of each pair sent.
   */
  lemma {:induction false} ScanEmitsFrom<C(!new), T>(seen: set<string>, cs: seq<C>, decide: (set<string>, C) -> Visit<T>, P: (C, string, T) -> bool)
    requires forall s: set<string>, c: C :: decide(s, c).Emit? ==> P(c, decide(s, c).key, decide(s, c).out)
    ensures EmittedBy(cs, ScanSpec(seen, cs, decide).keys, ScanSpec(seen, cs, decide).sent, P)
    decreases |cs|
  {
    if cs != [] {
      var init := cs[..|cs| - 1];
      ScanEmitsFrom(seen, init, decide, P);
      var s := ScanSpec(seen, init, decide);
      assert EmittedBy(init, s.keys, s.sent, P);
      var r := ScanSpec(seen, cs, decide);
      var last := cs[|cs| - 1];
      var emitted := !s.status.Failed? && decide(s.seen, last).Emit?;
      assert emitted ==> r.sent == s.sent + [decide(s.seen, last).out] && r.keys == s.keys + [decide(s.seen, last).key];
      assert !emitted ==> r.sent == s.sent && r.keys == s.keys;
      forall i | 0 <= i < |r.sent| ensures EmittedFrom(cs, r.keys[i], r.sent[i], P) {
        if i < |s.sent| {
          var key, x := s.keys[i], s.sent[i];
          var c :| c in init && P(c, key, x);
          assert c in cs && key == r.keys[i] && x == r.sent[i];
        } else {
          assert last in cs && P(last, r.keys[i], r.sent[i]);
        }
      }
    }
  }

  /**
   * A tick that ends without error has looked at every candidate: the key of
   * each candidate a decision can only skip because it is seen, or emit under
   * that very key, is in seen afterwards.
   */
  lemma {:induction false} ScanCovers<C(!new), T>(seen: set<string>, cs: seq<C>, decide: (set<string>, C) -> Visit<T>, Q: C -> bool, K: C -> string)
    requires forall s: set<string>, c: C :: Q(c) && decide(s, c).Skip? ==> K(c) in s
    requires forall s: set<string>, c: C :: Q(c) && decide(s, c).Emit? ==> decide(s, c).key == K(c)
    ensures ScanSpec(seen, cs, decide).status.Done? ==>
      forall c :: c in cs && Q(c) ==> K(c) in ScanSpec(seen, cs, decide).seen
    decreases |cs|
  {
    if cs != [] {
      var init, last := cs[..|cs| - 1], cs[|cs| - 1];
      assert cs == init + [last];
      ScanCovers(seen, init, decide, Q, K);
      var s := ScanSpec(seen, init, decide);
      var r := ScanSpec(seen, cs, decide);
      if r.status.Done? {
        assert !s.status.Failed? && s.seen <= r.seen;
        forall c | c in cs && Q(c) ensures K(c) in r.seen {
          if c !in init {
            assert c == last;
          }
        }
      }
    }
  }

  /** A failed tick failed on one of its candidates, with the mark that candidate's decision aborted with. */
  lemma {:induction false} ScanFailureFrom<C(!new), T>(seen: set<string>, cs: seq<C>, decide: (set<string>, C) -> Visit<T>, P: (C, Option<string>) -> bool)
    requires forall s: set<string>, c: C :: decide(s, c).Abort? ==> P(c, decide(s, c).mark)
    ensures var r := ScanSpec(seen, cs, decide);
      r.status.Failed? ==> exists c :: c in cs && P(c, r.status.mark)
    decreases |cs|
  {
    if cs != [] {
      var init := cs[..|cs| - 1];
      ScanFailureFrom(seen, init, decide, P);
      var s := ScanSpec(seen, init, decide);
      if s.status.Failed? {
        var c :| c in init && P(c, s.status.mark);
        assert c in cs;
      } else if ScanSpec(seen, cs, decide).status.Failed? {
        assert P(cs[|cs| - 1], ScanSpec(seen, cs, decide).status.mark);
      }
    }
  }

  /**
   * A candidate that fails whatever the seen-set ends the tick: nothing after
   * it is sent, whether or not its own key was seen before.
   */
  lemma BlockedAt<C, T>(seen: set<string>, cs: seq<C>, i: nat, decide: (set<string>, C) -> Visit<T>)
    requires i < |cs|
    requires forall s: set<string> :: decide(s, cs[i]).Abort?
    ensures var r := ScanSpec(seen, cs, decide);
      r.status.Failed? && r.sent == ScanSpec(seen, cs[..i], decide).sent
  {
    var c := cs[..i + 1];
    assert c[..i] == cs[..i];
    StopsAtFailure(seen, cs, i + 1, decide);
  }

  /** Appending one tick's keys to the history of all keys ever sent keeps it free of repeats. */
  lemma HistoryStaysDistinct(history: seq<string>, old_seen: set<string>, keys: seq<string>, new_seen: set<string>)
    requires NoDup(history) && Elems(history) <= old_seen
    requires NoDup(keys) && (forall i :: 0 <= i < |keys| ==> keys[i] !in old_seen)
    requires old_seen + Elems(keys) <= new_seen
    ensures NoDup(history + keys) && Elems(history + keys) <= new_seen
  {
    var h := history + keys;
    forall i, j | 0 <= i < j < |h| ensures h[i] != h[j] {
      if j >= |history| && i < |history| {
        assert h[i] in old_seen;
        assert h[j] == keys[j - |history|];
      } else if i >= |history| {
        assert h[i] == keys[i - |history|] && h[j] == keys[j - |history|];
      }
    }
    assert Elems(h) == Elems(history) + Elems(keys);
  }
}
