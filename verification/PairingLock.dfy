/**
  The global Matter-pairing mutex of services/matter_pairing_lock.py: one stored row with a lease
  that expires, may be taken over once expired, and is released by holder name.
  */
module PairingLock {
  import opened Prelude

  /** The single row of the lock table. */
  datatype Row = Row(
    isHeld: bool,
    holder: Option<string>,
    detail: Option<string>,
    acquiredAt: Option<real>,
    expiresAt: Option<real>,
    releasedAt: Option<real>,
    takenOverFrom: Option<string>)
  {
    /** The table's CHECK constraint. */
    predicate WellFormed() {
      isHeld ==> holder.Some? && expiresAt.Some?
    }
  }

  /** The row the migration seeds. */
  const SEEDED := Row(false, None, None, None, None, None, None)

  /** The WHERE clause of the acquiring UPDATE. */
  predicate Takeable(row: Row, now: real) {
    !row.isHeld || (row.expiresAt.Some? && row.expiresAt.value <= now)
  }

  function Acquired(row: Row, holder: string, detail: string, ttlSecs: int, now: real): Row {
    Row(true, Some(holder), Some(detail), Some(now), Some(now + ttlSecs as real), None,
        if row.isHeld then row.holder else None)
  }

  /** The WHERE clause of the releasing UPDATE compares the holder's name only. */
  predicate Releasable(row: Row, holder: string) {
    row.isHeld && row.holder == Some(holder)
  }

  function Released(row: Row, holder: string, now: real): Row {
    if Releasable(row, holder) then row.(isHeld := false, releasedAt := Some(now)) else row
  }

  datatype Acquisition =
    | Taken(expiresAt: real, takenOverFrom: Option<string>)
    | Busy(heldBy: Option<string>, heldFor: Option<string>, heldUntil: Option<real>)

  class LockTable {
    var row: Row

    constructor ()
      ensures row == SEEDED
    {
      row := SEEDED;
    }

    method TryAcquire(holder: string, detail: string, ttlSecs: int, now: real) returns (got: Acquisition)
      modifies this
      ensures got.Taken? <==> Takeable(old(row), now)
      ensures got.Taken? ==> row == Acquired(old(row), holder, detail, ttlSecs, now)
      ensures got.Taken? ==> row.expiresAt == Some(got.expiresAt) && got.takenOverFrom == row.takenOverFrom
      ensures got.Busy? ==> row == old(row) && got == Busy(row.holder, row.detail, row.expiresAt)
    {
      if row.isHeld == false || (row.expiresAt.Some? && row.expiresAt.value <= now) {
        var previous := if row.isHeld && row.expiresAt.Some? && row.expiresAt.value <= now then row.holder else None;
        row := row.(isHeld := true,
                    takenOverFrom := previous,
                    holder := Some(holder),
                    detail := Some(detail),
                    acquiredAt := Some(now),
                    expiresAt := Some(now + ttlSecs as real),
                    releasedAt := None);
        return Taken(now + ttlSecs as real, previous);
      }
      return Busy(row.holder, row.detail, row.expiresAt);
    }

    method Release(holder: string, now: real) returns (released: bool)
      modifies this
      ensures released <==> Releasable(old(row), holder)
      ensures row == Released(old(row), holder, now)
    {
      released := row.isHeld && row.holder == Some(holder);
      if released {
        row := row.(isHeld := false, releasedAt := Some(now));
      }
    }
  }

  // ---------------------------------------------------------------------------------------------
  // Any number of clients on one row
  // ---------------------------------------------------------------------------------------------

  /** inside: the clients currently in their block, each with the end of its lease.
      owner: the client whose acquisition wrote the row last. */
  datatype World = World(row: Row, now: real, inside: map<int, real>, owner: Option<int>)

  const START := World(SEEDED, 0.0, map[], None)

  datatype Move =
    | Acquire(client: int, detail: string, ttlSecs: int)
    | Release(client: int)
    | Crash(client: int)
    | Wait(secs: real)

  /** A client acquires only from outside its block, and leaves it by releasing or by dying in it. */
  predicate Enabled(names: map<int, string>, w: World, m: Move) {
    match m
    case Acquire(c, _, _) => c in names && c !in w.inside
    case Release(c) => c in names && c in w.inside
    case Crash(c) => c in names && c in w.inside
    case Wait(secs) => secs >= 0.0
  }

  function Apply(names: map<int, string>, w: World, m: Move): World
    requires Enabled(names, w, m)
  {
    match m
    case Acquire(c, detail, ttl) =>
      if Takeable(w.row, w.now)
      then World(Acquired(w.row, names[c], detail, ttl, w.now), w.now, w.inside[c := w.now + ttl as real], Some(c))
      else w
    case Release(c) => World(Released(w.row, names[c], w.now), w.now, w.inside - {c}, w.owner)
    case Crash(c) => w.(inside := w.inside - {c})
    case Wait(secs) => w.(now := w.now + secs)
  }

  /** The world after the moves, if each was enabled when it happened. */
  function Exec(names: map<int, string>, w: World, ms: seq<Move>): Option<World> {
    if ms == [] then Some(w)
    else
      var before := Exec(names, w, Init(ms));
      if before.Some? && Enabled(names, before.value, Last(ms))
      then Some(Apply(names, before.value, Last(ms)))
      else None
  }

  /** Move k acquires the row: it is free or its lease has run out at that moment. */
  ghost predicate TakesAt(names: map<int, string>, ms: seq<Move>, k: int) {
    && 0 <= k < |ms| && ms[k].Acquire? && Exec(names, START, ms[..k]).Some?
    && var before := Exec(names, START, ms[..k]).value;
    before.row.isHeld ==> before.row.expiresAt.Some? && before.row.expiresAt.value <= before.now
  }

  /** The row is the one move k acquired, released since or not. */
  ghost predicate TellsOf(names: map<int, string>, ms: seq<Move>, k: int, row: Row) {
    && TakesAt(names, ms, k) && ms[k].client in names
    && var before := Exec(names, START, ms[..k]).value;
    && row.holder == Some(names[ms[k].client]) && row.detail == Some(ms[k].detail)
    && row.acquiredAt == Some(before.now) && row.expiresAt == Some(before.now + ms[k].ttlSecs as real)
    && row.takenOverFrom == (if before.row.isHeld then before.row.holder else None)
    && (row.isHeld <==> row.releasedAt.None?)
  }

  lemma TakesBefore(names: map<int, string>, ms: seq<Move>, k: int)
    requires ms != [] && k < |ms| - 1
    ensures TakesAt(names, ms, k) <==> TakesAt(names, Init(ms), k)
    ensures forall row :: TellsOf(names, ms, k, row) <==> TellsOf(names, Init(ms), k, row)
  {
    assert 0 <= k ==> Init(ms)[..k] == ms[..k] && Init(ms)[k] == ms[k];
  }

  /** What the row says over any run, hence what an acquirer who finds it busy is told: name, detail, times and
      predecessor are those of the latest acquisition, and it is held exactly until it has been released. */
  lemma {:induction false} RowTellsTheLatestAcquisition(names: map<int, string>, ms: seq<Move>) returns (k: int)
    requires Exec(names, START, ms).Some?
    ensures var row := Exec(names, START, ms).value.row;
            || (row == SEEDED && forall j :: !TakesAt(names, ms, j))
            || (TellsOf(names, ms, k, row) && forall j :: TakesAt(names, ms, j) ==> j <= k)
  {
    k := -1;
    if ms != [] {
      var n := |ms| - 1;
      k := RowTellsTheLatestAcquisition(names, Init(ms));
      assert ms[..n] == Init(ms);
      forall j | j < n ensures TakesAt(names, ms, j) <==> TakesAt(names, Init(ms), j) {
        TakesBefore(names, ms, j);
      }
      if TakesAt(names, ms, n) {
        k := n;
      } else if TakesAt(names, Init(ms), k) {
        TakesBefore(names, ms, k);
      }
    }
  }

  ghost predicate Live(w: World, c: int) {
    c in w.inside && w.now < w.inside[c]
  }

  /** At most one client is inside its block with an unexpired lease. */
  ghost predicate Exclusive(w: World) {
    forall c, d :: Live(w, c) && Live(w, d) ==> c == d
  }

  ghost predicate DistinctNames(names: map<int, string>) {
    forall c, d :: c in names && d in names && names[c] == names[d] ==> c == d
  }

  /** The row tells the truth about the latest acquisition, and a live client is the one that made it. */
  ghost predicate Faithful(names: map<int, string>, w: World) {
    && w.row.WellFormed()
    && (w.row.isHeld ==> w.owner.Some? && w.owner.value in names && w.row.holder == Some(names[w.owner.value]))
    && (forall c :: Live(w, c) ==> c in names && w.row.isHeld && w.owner == Some(c) && w.row.expiresAt == Some(w.inside[c]))
  }

  lemma {:induction false} ReachableIsFaithful(names: map<int, string>, ms: seq<Move>)
    requires DistinctNames(names)
    requires Exec(names, START, ms).Some?
    ensures Faithful(names, Exec(names, START, ms).value)
  {
    if ms != [] {
      ReachableIsFaithful(names, Init(ms));
      FaithfulStep(names, Exec(names, START, Init(ms)).value, Last(ms));
    }
  }

  lemma FaithfulStep(names: map<int, string>, w: World, m: Move)
    requires DistinctNames(names) && Faithful(names, w) && Enabled(names, w, m)
    ensures Faithful(names, Apply(names, w, m))
  {
    var v := Apply(names, w, m);
    forall c | Live(v, c)
      ensures c in names && v.row.isHeld && v.owner == Some(c) && v.row.expiresAt == Some(v.inside[c])
    {
      if m.Acquire? && Takeable(w.row, w.now) {
        assert c != m.client ==> Live(w, c);
      } else {
        assert Live(w, c);
      }
    }
  }

  /** The run in which a client, its lease expired, frees the row of a successor with the same name. */
  function SharedNameRun(a: int, b: int): seq<Move> {
    [Acquire(a, "", 1), Wait(2.0), Acquire(b, "", 10), Release(a), Acquire(a, "", 10)]
  }

  lemma SharedNameBreaksExclusion(names: map<int, string>, a: int, b: int)
    requires a in names && b in names && a != b && names[a] == names[b]
    ensures Exec(names, START, SharedNameRun(a, b)).Some?
    ensures !Exclusive(Exec(names, START, SharedNameRun(a, b)).value)
  {
    var ms := SharedNameRun(a, b);
    var w1 := Apply(names, START, Acquire(a, "", 1));
    var w2 := Apply(names, w1, Wait(2.0));
    var w3 := Apply(names, w2, Acquire(b, "", 10));
    var w4 := Apply(names, w3, Release(a));
    var w5 := Apply(names, w4, Acquire(a, "", 10));
    assert Init(ms[..1]) == [] && Exec(names, START, []) == Some(START);
    assert Exec(names, START, ms[..1]) == Some(w1);
    assert Init(ms[..2]) == ms[..1] && Exec(names, START, ms[..2]) == Some(w2);
    assert Init(ms[..3]) == ms[..2] && Exec(names, START, ms[..3]) == Some(w3);
    assert Init(ms[..4]) == ms[..3] && Exec(names, START, ms[..4]) == Some(w4);
    assert Init(ms) == ms[..4] && Exec(names, START, ms) == Some(w5);
    assert Live(w5, a) && Live(w5, b);
  }

  ghost predicate ExclusiveAlways(names: map<int, string>) {
    forall ms :: Exec(names, START, ms).Some? ==> Exclusive(Exec(names, START, ms).value)
  }

  /** Release goes by name, so the lease excludes over every interleaving of acquisitions, releases,
      crashes and delays exactly when no two clients share a holder name. */
  lemma ExclusionExactlyForDistinctNames(names: map<int, string>)
    ensures ExclusiveAlways(names) <==> DistinctNames(names)
  {
    if DistinctNames(names) {
      forall ms | Exec(names, START, ms).Some?
        ensures Exclusive(Exec(names, START, ms).value)
      {
        ReachableIsFaithful(names, ms);
      }
    }
    if ExclusiveAlways(names) {
      forall c, d | c in names && d in names && names[c] == names[d]
        ensures c == d
      {
        if c != d {
          SharedNameBreaksExclusion(names, c, d);
        }
      }
    }
  }

  /** Every client inside its block is there on an unexpired lease. */
  ghost predicate Prompt(w: World) {
    forall c :: c in w.inside ==> Live(w, c)
  }

  ghost predicate AlwaysPrompt(names: map<int, string>, ms: seq<Move>) {
    forall k :: 0 <= k <= |ms| ==> Exec(names, START, ms[..k]).Some? && Prompt(Exec(names, START, ms[..k]).value)
  }

  /** Whoever is inside made the latest acquisition, and the row says so. */
  ghost predicate HeldForTheOneInside(w: World) {
    forall c :: c in w.inside ==> w.row.isHeld && w.owner == Some(c) && w.row.expiresAt == Some(w.inside[c])
  }

  lemma {:induction false} PromptRunHoldsForOne(names: map<int, string>, ms: seq<Move>)
    requires AlwaysPrompt(names, ms)
    ensures Exec(names, START, ms).Some? && HeldForTheOneInside(Exec(names, START, ms).value)
  {
    assert ms[..|ms|] == ms;
    if ms != [] {
      assert forall k :: 0 <= k < |ms| ==> Init(ms)[..k] == ms[..k];
      assert Init(ms)[..|ms| - 1] == Init(ms) == ms[..|ms| - 1];
      PromptRunHoldsForOne(names, Init(ms));
      var w := Exec(names, START, Init(ms)).value;
      assert Prompt(w);
      forall c | c in w.inside
        ensures Live(w, c) && !Takeable(w.row, w.now)
      {
      }
    }
  }

  /** Even under shared names the lease excludes, as long as every client leaves before its lease expires. */
  lemma PromptClientsExclude(names: map<int, string>, ms: seq<Move>)
    requires AlwaysPrompt(names, ms)
    ensures Exec(names, START, ms).Some? && Exclusive(Exec(names, START, ms).value)
  {
    PromptRunHoldsForOne(names, ms);
  }

  /** A release takes effect once, and under the holder's name only: told again, or by another, the row stays as the
      first one left it. */
  lemma ReleaseTakesEffectOnce(row: Row, holder: string, now: real, again: string, later: real)
    ensures var freed := Released(row, holder, now);
            && (freed != row ==> row.isHeld && row.holder == Some(holder))
            && (row.isHeld && row.holder == Some(holder) ==> !freed.isHeld && freed.releasedAt == Some(now))
            && (!freed.isHeld ==> !Releasable(freed, again) && Released(freed, again, later) == freed)
  {
  }

  /** A client's release frees the row exactly when the row is held through that client's own
      acquisition: after a takeover it does not touch the successor's lease. */
  lemma ReleaseFreesOwnLeaseOnly(names: map<int, string>, ms: seq<Move>, c: int)
    requires DistinctNames(names)
    requires Exec(names, START, ms).Some?
    requires Enabled(names, Exec(names, START, ms).value, Release(c))
    ensures var w := Exec(names, START, ms).value;
            var v := Apply(names, w, Release(c));
            && (w.row.isHeld && w.owner == Some(c) ==> v.row == w.row.(isHeld := false, releasedAt := Some(w.now)))
            && (!(w.row.isHeld && w.owner == Some(c)) ==> v.row == w.row)
  {
    ReachableIsFaithful(names, ms);
  }

  /** The release leaves the row alone unless the row is held through the client's own acquisition. */
  ghost predicate ReleasesOwnOnly(names: map<int, string>, w: World, c: int)
    requires Enabled(names, w, Release(c))
  {
    (w.row.isHeld && w.owner == Some(c)) || Apply(names, w, Release(c)).row == w.row
  }

  ghost predicate ReleasesAlwaysOwnOnly(names: map<int, string>) {
    forall ms, c :: Exec(names, START, ms).Some? && Enabled(names, Exec(names, START, ms).value, Release(c)) ==>
                      ReleasesOwnOnly(names, Exec(names, START, ms).value, c)
  }

  /** The lease of a ran out and b, of the same name, took over. */
  function TakenOverRun(a: int, b: int): seq<Move> {
    [Acquire(a, "", 1), Wait(2.0), Acquire(b, "", 10)]
  }

  /** There a's release frees the row of b, its successor. */
  lemma SharedNameFreesSuccessor(names: map<int, string>, a: int, b: int)
    requires a in names && b in names && a != b && names[a] == names[b]
    ensures Exec(names, START, TakenOverRun(a, b)).Some?
    ensures var w := Exec(names, START, TakenOverRun(a, b)).value;
            && Enabled(names, w, Release(a)) && w.row.isHeld && w.owner == Some(b) && Live(w, b)
            && !Apply(names, w, Release(a)).row.isHeld && !ReleasesOwnOnly(names, w, a)
  {
    var ms := TakenOverRun(a, b);
    var w1 := Apply(names, START, Acquire(a, "", 1));
    var w2 := Apply(names, w1, Wait(2.0));
    var w3 := Apply(names, w2, Acquire(b, "", 10));
    assert Init(ms[..1]) == [] && Exec(names, START, []) == Some(START);
    assert Exec(names, START, ms[..1]) == Some(w1);
    assert Init(ms[..2]) == ms[..1] && Exec(names, START, ms[..2]) == Some(w2);
    assert Init(ms) == ms[..2] && Exec(names, START, ms) == Some(w3);
  }

  /** A guarded release never frees a successor's lease, over every interleaving, exactly when no two clients
      share a name. */
  lemma ReleaseIsGuardedExactlyForDistinctNames(names: map<int, string>)
    ensures ReleasesAlwaysOwnOnly(names) <==> DistinctNames(names)
  {
    if DistinctNames(names) {
      forall ms, c | Exec(names, START, ms).Some? && Enabled(names, Exec(names, START, ms).value, Release(c))
        ensures ReleasesOwnOnly(names, Exec(names, START, ms).value, c)
      {
        ReleaseFreesOwnLeaseOnly(names, ms, c);
      }
    }
    if ReleasesAlwaysOwnOnly(names) {
      forall c, d | c in names && d in names && names[c] == names[d]
        ensures c == d
      {
        if c != d {
          SharedNameFreesSuccessor(names, c, d);
        }
      }
    }
  }

  /** Under any names, a client that leaves before its lease expires, as all others do, frees its own. */
  lemma PromptReleaseFreesOwn(names: map<int, string>, ms: seq<Move>, c: int)
    requires AlwaysPrompt(names, ms)
    requires Exec(names, START, ms).Some? && Enabled(names, Exec(names, START, ms).value, Release(c))
    ensures ReleasesOwnOnly(names, Exec(names, START, ms).value, c)
    ensures Exec(names, START, ms).value.owner == Some(c)
  {
    PromptRunHoldsForOne(names, ms);
  }

  /** While its lease runs, a row keeps its owner until that owner releases it: every other client's
      acquisition is refused and every other client's release has no effect. */
  lemma {:induction false} LeaseStands(names: map<int, string>, w: World, ms: seq<Move>)
    requires DistinctNames(names) && Faithful(names, w)
    requires w.row.isHeld
    requires forall i :: 0 <= i < |ms| ==> ms[i] != Release(w.owner.value)
    requires Exec(names, w, ms).Some?
    requires Exec(names, w, ms).value.now < w.row.expiresAt.value
    ensures var v := Exec(names, w, ms).value;
            && w.now <= v.now
            && v.row == w.row && v.owner == w.owner && Faithful(names, v)
            && !Takeable(v.row, v.now)
    ensures w.owner.value in w.inside && (forall i :: 0 <= i < |ms| ==> ms[i] != Crash(w.owner.value)) ==>
              var v := Exec(names, w, ms).value;
              w.owner.value in v.inside && v.inside[w.owner.value] == w.inside[w.owner.value]
  {
    if ms != [] {
      var before := Exec(names, w, Init(ms)).value;
      assert before.now <= Exec(names, w, ms).value.now;
      assert Last(ms) != Release(w.owner.value);
      forall i | 0 <= i < |Init(ms)| ensures Init(ms)[i] == ms[i] {}
      LeaseStands(names, w, Init(ms));
      FaithfulStep(names, before, Last(ms));
    }
  }

  /** Move k takes over, after its lease ran out, the row that holder left behind. */
  ghost predicate TakesOverAt(names: map<int, string>, w: World, ms: seq<Move>, k: int, holder: string)
    requires w.row.isHeld && w.row.expiresAt.Some?
  {
    && 0 <= k < |ms| && ms[k].Acquire?
    && Exec(names, w, ms[..k]).Some? && Exec(names, w, ms[..k + 1]).Some?
    && var before, after := Exec(names, w, ms[..k]).value, Exec(names, w, ms[..k + 1]).value;
    && before.row == w.row && w.row.expiresAt.value <= before.now
    && after.row.takenOverFrom == Some(holder) && after.owner == Some(ms[k].client)
  }

  /** What becomes of the row of a dead holder: it stays as it was, or some client has taken it over by name. */
  lemma {:induction false} DeadRowStaysOrIsTakenOver(names: map<int, string>, w: World, ms: seq<Move>, c: int)
    requires DistinctNames(names) && Faithful(names, w)
    requires w.row.isHeld && w.owner == Some(c) && c !in w.inside
    requires Exec(names, w, ms).Some?
    ensures var v := Exec(names, w, ms).value;
            || (v.row == w.row && v.owner == Some(c) && c !in v.inside)
            || exists k :: TakesOverAt(names, w, ms, k, names[c])
  {
    if ms != [] {
      DeadRowStaysOrIsTakenOver(names, w, Init(ms), c);
      assert ms[..|ms| - 1] == Init(ms) && ms[..|ms|] == ms;
      if k :| TakesOverAt(names, w, Init(ms), k, names[c]) {
        assert Init(ms)[..k] == ms[..k] && Init(ms)[..k + 1] == ms[..k + 1];
        assert TakesOverAt(names, w, ms, k, names[c]);
      } else {
        var before := Exec(names, w, Init(ms)).value;
        if Last(ms).Acquire? && Takeable(before.row, before.now) {
          assert TakesOverAt(names, w, ms, |ms| - 1, names[c]);
        }
      }
    }
  }

  /** A holder that dies in its block keeps the others out until its lease expires and not longer: up to
      then the row does not change; from then on some client has taken it over, recording the dead holder's
      name, or the row can be taken at once by any client outside, again recording it. */
  lemma CrashedHolderBlocksUntilExpiry(
    names: map<int, string>, past: seq<Move>, w: World, ms: seq<Move>, v: World, c: int)
    requires DistinctNames(names)
    requires Exec(names, START, past) == Some(w)
    requires w.row.isHeld && w.owner == Some(c) && c !in w.inside
    requires Exec(names, w, ms) == Some(v)
    ensures Faithful(names, w)
    ensures v.now < w.row.expiresAt.value ==> v.row == w.row && !Takeable(v.row, v.now)
    ensures w.row.expiresAt.value <= v.now ==>
              || (exists k :: TakesOverAt(names, w, ms, k, names[c]))
              || (Takeable(v.row, v.now)
                  && forall d, detail, ttlSecs :: Enabled(names, v, Acquire(d, detail, ttlSecs)) ==>
                       var taken := Apply(names, v, Acquire(d, detail, ttlSecs));
                       taken.owner == Some(d) && taken.row.takenOverFrom == Some(names[c]))
  {
    ReachableIsFaithful(names, past);
    DeadRowStaysOrIsTakenOver(names, w, ms, c);
    if v.now < w.row.expiresAt.value {
      DeadOwnerNeverReleases(names, w, ms);
      LeaseStands(names, w, ms);
    }
  }

  lemma {:induction false} DeadOwnerNeverReleases(names: map<int, string>, w: World, ms: seq<Move>)
    requires DistinctNames(names) && Faithful(names, w)
    requires w.row.isHeld && w.owner.value !in w.inside
    requires Exec(names, w, ms).Some?
    requires Exec(names, w, ms).value.now < w.row.expiresAt.value
    ensures forall i :: 0 <= i < |ms| ==> ms[i] != Release(w.owner.value)
    ensures w.owner.value !in Exec(names, w, ms).value.inside
  {
    if ms != [] {
      var before := Exec(names, w, Init(ms)).value;
      assert before.now <= Exec(names, w, ms).value.now;
      DeadOwnerNeverReleases(names, w, Init(ms));
      LeaseStands(names, w, Init(ms));
      assert ms == Init(ms) + [Last(ms)];
    }
  }
}
