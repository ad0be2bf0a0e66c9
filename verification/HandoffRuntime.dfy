/**
 * The handoff functions themselves, step by step. Before every file or store
 * operation the Host may write (any number of times), the operation may fail
 * with an I/O error, or the process may die. `history` records the disk after
 * every operation, so what holds of all of it holds wherever a crash can strike.
 */
module HandoffRuntime {
  import opened Lists
  import opened CredentialHandoff

  datatype Status = Ok | Missing | Exists | Failed | Died

  /** How one apply ends. `SetFailed(swallowed)`: the store refused; `swallowed` if restoring then failed too. */
  datatype Outcome = Done | EmptyKey | SetFailed(swallowed: bool) | FileError | Crashed

  ghost predicate InBounds(d: Disk) {
    && (forall t :: t in d.claims ==> d.claims[t] < |d.written|)
    && (d.live.Some? ==> d.live.value < |d.written|)
  }

  /** The Host (and, when others may delete files, those others) acted between `d` and `e`. */
  ghost predicate OthersActed(solo: bool, d: Disk, e: Disk) {
    && e.stored == d.stored
    && d.written <= e.written
    && (e.live == d.live || (e.live.Some? && e.live.value >= |d.written|))
    && (forall t :: t in e.claims ==> t in d.claims && e.claims[t] == d.claims[t])
    && (solo ==> e.claims == d.claims)
  }

  /** Where the sweep may start: live stands, or there is nothing to sweep, or the newest claim's Key is stored. */
  ghost predicate Sweepable(d: Disk) {
    d.live.Some? || d.claims == map[] || exists t :: Newest(d.claims, t) && LastStored(d, d.claims[t])
  }

  /** The last path in name order: a reduce over the listing. */
  method NewestClaim(paths: seq<Token>) returns (newest: Option<Token>)
    ensures newest.None? <==> paths == []
    ensures newest.Some? ==> newest.value in paths && forall p :: p in paths ==> p <= newest.value
  {
    if paths == [] { return None; }
    var latest := paths[0];
    for i := 1 to |paths|
      invariant latest in paths && forall k :: 0 <= k < i ==> paths[k] <= latest
    {
      if paths[i] > latest { latest := paths[i]; }
    }
    return Some(latest);
  }

  class Runtime {
    // True when no other process removes claim files.
    const solo: bool
    var live: Option<Serial>
    var claims: map<Token, Serial>
    var stored: seq<Serial>
    var written: seq<string>
    ghost var history: seq<Disk>
    // The faults our own operations have drawn so far: what each answered when it did not do its work.
    ghost var faults: seq<Status>

    ghost function Now(): Disk
      reads this
    {
      Disk(live, claims, stored, written)
    }

    ghost predicate Valid()
      reads this
    {
      && InBounds(Now())
      && history != [] && history[|history| - 1] == Now()
      && (solo ==> forall i :: 0 <= i < |history| ==> Consistent(history[i]))
    }

    constructor (solo: bool)
      ensures Valid() && this.solo == solo && Now() == Disk(None, map[], [], [])
    {
      this.solo := solo;
      live, claims, stored, written, faults := None, map[], [], [], [];
      history := [Disk(None, map[], [], [])];
    }

    ghost method Record()
      requires InBounds(Now()) && history != [] && (solo ==> Consistent(Now()))
      requires solo ==> forall i :: 0 <= i < |history| ==> Consistent(history[i])
      modifies `history
      ensures Valid() && old(history) <= history && old(written) <= written
    {
      history := history + [Now()];
    }

    /** Everything the rest of the machine may do between two of our operations. */
    method Interfere()
      requires Valid()
      modifies this`live, this`claims, this`written, this`history
      ensures Valid() && OthersActed(solo, old(Now()), Now()) && old(history) <= history && old(written) <= written
    {
      var writes: nat, deletions: nat := *, *;
      for i := 0 to writes
        invariant Valid() && OthersActed(solo, old(Now()), Now()) && old(history) <= history && old(written) <= written
      {
        var key: string := *;
        if solo { HostWriteIsConsistent(Now(), key); }
        live, written := Some(|written|), written + [key];
        Record();
      }
      for i := 0 to if solo then 0 else deletions
        invariant Valid() && OthersActed(solo, old(Now()), Now()) && old(history) <= history && old(written) <= written
      {
        var path: Token := *;
        claims := claims - {path};
        Record();
      }
    }

    /** What the file system or the store answers before doing anything: nothing, an error, or the process dies. */
    method Draw() returns (status: Status)
      modifies `faults
      ensures status in {Ok, Failed, Died} && faults == old(faults) + Fault(status)
    {
      status :| status == Ok || status == Failed || status == Died;
      faults := faults + Fault(status);
    }

    /** rename(livePath, claimPath) */
    method RenameLive(token: Token) returns (status: Status, ghost at: Disk)
      requires Valid() && LaterThan(token, claims.Keys)
      modifies this
      ensures Valid() && OthersActed(solo, old(Now()), at) && old(history) <= history && old(written) <= written
      ensures status == Ok ==> at.live.Some? && Now() == Disk(None, at.claims[token := at.live.value], at.stored, at.written)
      ensures status != Ok ==> Now() == at
      ensures faults == old(faults) + Fault(status)
      ensures status in {Ok, Missing, Failed, Died} && (status == Missing ==> at.live.None?)
      ensures solo ==> Consistent(at)
    {
      Interfere();
      at := Now();
      var fault := Draw();
      if fault != Ok { return fault, at; }
      if live.None? { return Missing, at; }
      if solo { ClaimIsConsistent(Now(), token); }
      live, claims := None, claims[token := live.value];
      Record();
      return Ok, at;
    }

    /** readdir, filtered to claim files; a missing directory lists as empty. */
    method ListClaims() returns (status: Status, paths: seq<Token>)
      requires Valid()
      modifies this
      ensures Valid() && OthersActed(solo, old(Now()), Now()) && old(history) <= history && old(written) <= written
      ensures faults == old(faults) + Fault(status)
      ensures status in {Ok, Failed, Died}
      ensures status == Ok ==> Distinct(paths) && forall t :: t in paths <==> t in claims
    {
      Interfere();
      status := Draw();
      paths := [];
      if status == Ok {
        var rest := claims.Keys;
        while rest != {}
          invariant rest <= claims.Keys
          invariant Distinct(paths) && forall t :: t in paths <==> t in claims.Keys - rest
        {
          var t :| t in rest;
          assert t !in paths;
          paths, rest := paths + [t], rest - {t};
        }
      }
    }

    /** readFile(claimPath) */
    method Read(path: Token) returns (status: Status, text: string, serial: Serial)
      requires Valid()
      modifies this
      ensures Valid() && OthersActed(solo, old(Now()), Now()) && old(history) <= history && old(written) <= written
      ensures faults == old(faults) + Fault(status)
      ensures status in {Ok, Missing, Failed, Died}
      ensures status == Ok ==> path in claims && serial == claims[path] && text == written[serial]
      ensures status == Missing ==> path !in claims
    {
      Interfere();
      text, serial := "", 0;
      status := Draw();
      if status == Ok {
        if path !in claims { return Missing, "", 0; }
        text, serial := written[claims[path]], claims[path];
      }
    }

    /** credentials.set: a refusal may or may not have changed the store. */
    method Put(path: Token, serial: Serial) returns (status: Status)
      requires Valid()
      requires solo ==> Newest(claims, path) && claims[path] == serial && NotBehind(Now(), serial)
      modifies this
      ensures Valid() && old(history) <= history && old(written) <= written && status in {Ok, Failed, Died}
      ensures faults == old(faults) + Fault(status)
      ensures exists at :: OthersActed(solo, old(Now()), at) && (Now() == at || Now() == CredentialHandoff.Put(at, serial))
      ensures LiveIsNewer(old(live), |old(written)|)
      ensures status == Ok ==> stored == old(stored) + [serial]
      ensures status != Ok ==> stored == old(stored) || stored == old(stored) + [serial]
      ensures solo ==> claims == old(claims)
    {
      Interfere();
      ghost var at := Now();
      status := Draw();
      var took: bool := *;
      if status == Ok || took {
        if solo { PutIsConsistent(Now(), path); }
        stored := stored + [serial];
        Record();
      }
    }

    /** copyFile(claimPath, livePath, COPYFILE_EXCL) */
    method CopyBack(path: Token) returns (status: Status)
      requires Valid() && (solo ==> Newest(claims, path))
      modifies this
      ensures Valid() && old(history) <= history && old(written) <= written
      ensures status in {Ok, Exists, Missing, Failed, Died} && (solo ==> status != Missing)
      ensures faults == old(faults) + if status == Missing then [Missing] else Fault(status)
      ensures stored == old(stored) && (solo ==> claims == old(claims))
      ensures forall t :: t in claims ==> t in old(claims)
      ensures old(live).Some? ==> live.Some?
      ensures status in {Ok, Exists} ==> live.Some?
      ensures status == Ok ==> path in old(claims) && live == Some(old(claims)[path])
    {
      Interfere();
      var fault := Draw();
      if fault != Ok { return fault; }
      // The copy opens its source before it creates the target.
      if path !in claims {
        faults := faults + [Missing];
        return Missing;
      }
      if live.Some? { return Exists; }
      if solo { RestoreIsConsistent(Now(), path); }
      live := Some(claims[path]);
      Record();
      return Ok;
    }

    /** unlink, ignoring a file that is not there */
    method UnlinkIfPresent(path: Token) returns (status: Status)
      requires Valid() && (solo && path in claims ==> MayUnlink(Now(), path))
      modifies this
      ensures Valid() && old(history) <= history && old(written) <= written && status in {Ok, Failed, Died}
      ensures faults == old(faults) + Fault(status)
      ensures stored == old(stored)
      ensures forall t :: t in claims ==> t in old(claims) && claims[t] == old(claims)[t]
      ensures LiveIsNewer(old(live), |old(written)|)
      ensures status == Ok ==> path !in claims
      ensures solo ==> claims == if status == Ok then old(claims) - {path} else old(claims)
      ensures old(live).Some? ==> live.Some?
    {
      Interfere();
      status := Draw();
      if status == Ok && path in claims {
        if solo { UnlinkIsConsistent(Now(), path); }
        claims := claims - {path};
        Record();
      }
    }

    /** Remove the claim files, oldest first. */
    method Sweep() returns (status: Status)
      requires Valid() && (solo ==> Sweepable(Now()))
      modifies this
      ensures Valid() && old(history) <= history && old(written) <= written && status in {Ok, Failed, Died}
      ensures faults == old(faults) + Fault(status)
      ensures LiveIsNewer(old(live), |old(written)|)
      ensures stored == old(stored) && (old(live).Some? ==> live.Some?)
      ensures status == Ok ==> claims == map[]
    {
      var paths: seq<Token>;
      status, paths := ListClaims();
      if status != Ok { return; }
      paths := SortAscending(paths);
      for i := 0 to |paths|
        invariant Valid() && old(history) <= history && old(written) <= written
        invariant stored == old(stored) && (old(live).Some? ==> live.Some?) && faults == old(faults)
        invariant Listed(paths[i..]) && LiveIsNewer(old(live), |old(written)|)
      {
        assert paths[i..][1..] == paths[i + 1..];
        status := SweepNext(paths[i..]);
        if status != Ok { return; }
      }
      return Ok;
    }

    /** What is left of the listing covers the claim files, and is exactly them if nobody else deletes. */
    ghost predicate Listed(paths: seq<Token>)
      reads this
    {
      && (forall t :: t in claims ==> t in paths)
      && (solo ==> Sweepable(Now()) && forall t :: t in paths ==> t in claims)
    }

    method SweepNext(paths: seq<Token>) returns (status: Status)
      requires Valid() && paths != [] && Ascending(paths) && Listed(paths)
      modifies this
      ensures Valid() && old(history) <= history && old(written) <= written && status in {Ok, Failed, Died}
      ensures faults == old(faults) + Fault(status)
      ensures LiveIsNewer(old(live), |old(written)|)
      ensures stored == old(stored) && (old(live).Some? ==> live.Some?)
      ensures status == Ok ==> Listed(paths[1..])
    {
      FirstAndRest(paths);
      if solo { OldestMayGo(Now(), paths); }
      ghost var before := Now();
      status := UnlinkIfPresent(paths[0]);
      if solo && status == Ok { SweepableStays(before, paths[0], Now()); }
    }

    /** Put the claimed Key back as the live file, unless the Host has written a newer one. */
    method RestoreClaimed(path: Token) returns (status: Status)
      requires Valid() && (solo ==> Newest(claims, path))
      modifies this
      ensures Valid() && old(history) <= history && old(written) <= written
      ensures status in {Ok, Missing, Failed, Died} && (solo ==> status != Missing)
      ensures faults == old(faults) + if status == Ok then [] else [status]
      ensures stored == old(stored) && (status == Ok ==> live.Some? && path !in claims)
    {
      status := CopyBack(path);
      if status == Exists || status == Ok {
        status := UnlinkIfPresent(path);
      }
    }

    /** What the protocol does with a Key it cannot store: put it back, then sweep. */
    method GiveBack(path: Token) returns (status: Status)
      requires Valid() && (solo ==> Newest(claims, path))
      modifies this
      ensures Valid() && old(history) <= history && old(written) <= written
      ensures status in {Ok, Missing, Failed, Died} && (solo ==> status != Missing)
      ensures faults == old(faults) + if status == Ok then [] else [status]
      ensures stored == old(stored) && (status == Ok ==> live.Some? && claims == map[])
    {
      status := RestoreClaimed(path);
      if status == Ok {
        status := Sweep();
      }
    }

    /** Take ownership of the pending Key: the live file if there is one, else the newest leftover claim. */
    method ClaimHandoff() returns (status: Status, path: Option<Token>)
      requires Valid()
      modifies this
      ensures Valid() && old(history) <= history && old(written) <= written
      ensures status in {Ok, Failed, Died} && stored == old(stored)
      ensures faults == old(faults) + if status == Ok then [] else [status]
      ensures status == Ok && path.None? ==> claims == map[] && (solo ==> old(live).None? && old(claims) == map[])
      ensures status == Ok ==> LiveIsNewer(None, |old(written)|)
      ensures status == Ok && path.Some? ==> Newest(claims, path.value)
      ensures status == Ok && path.Some? && written == old(written) ==> old(live).Some? || old(claims) != map[]
      ensures status == Ok && path.Some? && solo ==>
        NotBehind(Now(), claims[path.value]) && claims[path.value] >= |old(written)| - 1
    {
      ghost var later := LaterTokenExists(claims.Keys);
      var token: Token :| LaterThan(token, claims.Keys);
      ghost var at;
      path := None;
      status, at := RenameLive(token);
      if solo { PendingIsNewest(at); }
      if status == Ok {
        if solo { ClaimIsConsistent(at, token); }
        return Ok, Some(token);
      }
      if status != Missing { return; }
      var paths;
      status, paths := ListClaims();
      if status == Ok {
        path := NewestClaim(paths);
        assert paths != [] ==> paths[0] in claims;
        assert path.Some? ==> Newest(claims, path.value);
        assert path.Some? && solo ==> Newest(at.claims, path.value);
      }
    }

    /** One apply's worth of the protocol. */
    method Consume() returns (outcome: Outcome)
      requires Valid()
      modifies this
      ensures Valid() && old(history) <= history && old(written) <= written
      ensures HowItEnds(outcome, old(faults))
      // Every ending without a crash or an unreported file error leaves no claim file behind.
      ensures outcome in {Done, EmptyKey, SetFailed(false)} ==> claims == map[]
      // A refused or empty Key is back in the live file, or a newer one is there.
      ensures outcome in {EmptyKey, SetFailed(false)} ==> live.Some?
      ensures outcome == EmptyKey ==> stored == old(stored)
      // Success stores exactly one usable Key, at least as new as any written before the apply began.
      ensures outcome == Done && solo ==>
        || StoredNewest(old(stored), |old(written)|)
        || (stored == old(stored) && old(live).None? && old(claims) == map[])
      // A Key that was stored is not left to be applied again.
      ensures outcome == Done ==> LiveIsNewer(None, |old(written)|)
      // Without a fault a pending Key is consumed: stored, or given back when it is empty.
      ensures solo && faults == old(faults) && (old(live).Some? || old(claims) != map[]) ==>
        Consumed(outcome, old(stored), |old(written)|)
      // Without a pending Key, or one the Host writes meanwhile, nothing happens.
      ensures faults == old(faults) && old(live).None? && old(claims) == map[] && written == old(written) ==>
        outcome == Done && stored == old(stored) && claims == map[]
    {
      var status, path := ClaimHandoff();
      if status != Ok { return if status == Died then Crashed else FileError; }
      if path.None? { return Done; }
      outcome := StoreClaimed(path.value);
    }

    /** Read the claimed Key, store it and clean up. */
    method StoreClaimed(path: Token) returns (outcome: Outcome)
      requires Valid() && (solo ==> Newest(claims, path) && NotBehind(Now(), claims[path]))
      modifies this
      ensures Valid() && old(history) <= history && old(written) <= written
      ensures HowItEnds(outcome, old(faults))
      ensures outcome in {Done, EmptyKey, SetFailed(false)} ==> claims == map[]
      ensures outcome in {EmptyKey, SetFailed(false)} ==> live.Some?
      ensures outcome == EmptyKey ==> stored == old(stored)
      ensures outcome == Done ==> LiveIsNewer(old(live), |old(written)|)
      ensures outcome == Done && solo ==> StoredNewest(old(stored), old(claims)[path] + 1)
      ensures solo && faults == old(faults) ==> Consumed(outcome, old(stored), old(claims)[path] + 1)
    {
      var status, text, serial := Read(path);
      if status == Missing {
        status := Sweep();
        return if status == Ok then Done else if status == Died then Crashed else FileError;
      }
      if status != Ok { return if status == Died then Crashed else FileError; }
      if |text| == 0 {
        status := GiveBack(path);
        return if status == Ok then EmptyKey else if status == Died then Crashed else FileError;
      }
      outcome := StoreUsable(path, serial);
    }

    method StoreUsable(path: Token, serial: Serial) returns (outcome: Outcome)
      requires Valid() && serial < |written| && written[serial] != ""
      requires solo ==> Newest(claims, path) && claims[path] == serial && NotBehind(Now(), serial)
      modifies this
      ensures Valid() && old(history) <= history && old(written) <= written
      ensures outcome in {Done, SetFailed(false), SetFailed(true), FileError, Crashed}
      ensures HowItEnds(outcome, old(faults))
      ensures outcome in {Done, SetFailed(false)} ==> claims == map[]
      ensures outcome == SetFailed(false) ==> live.Some?
      ensures outcome == Done ==> stored == old(stored) + [serial] && LiveIsNewer(old(live), |old(written)|)
    {
      var status := Put(path, serial);
      if status == Failed {
        status := GiveBack(path);
        return if status == Died then Crashed else SetFailed(status != Ok);
      }
      if status != Ok { return Crashed; }
      status := Sweep();
      return if status == Ok then Done else if status == Died then Crashed else FileError;
    }

    /** The live file is as it was, or the Host has written a newer one. */
    ghost predicate LiveIsNewer(before: Option<Serial>, wroteBefore: nat)
      reads this
    {
      live == before || (live.Some? && wroteBefore <= live.value)
    }

    /** Each ending is owed to exactly these faults of our own operations during the apply. */
    ghost predicate HowItEnds(outcome: Outcome, before: seq<Status>)
      reads this
    {
      match outcome
      case Done => faults == before
      case EmptyKey => faults == before
      case SetFailed(false) => faults == before + [Failed]
      case SetFailed(true) => faults == before + [Failed, Failed] || (!solo && faults == before + [Failed, Missing])
      case FileError => faults == before + [Failed] || (!solo && faults == before + [Missing])
      case Crashed => faults == before + [Died] || faults == before + [Failed, Died]
    }

    /** The Key taken is at least as new as every one written before: the only one stored, or empty and given back. */
    ghost predicate Consumed(outcome: Outcome, before: seq<Serial>, wroteBefore: nat)
      reads this
    {
      && claims == map[]
      && ((outcome == Done && StoredNewest(before, wroteBefore))
          || (outcome == EmptyKey && stored == before && live.Some?
              && exists k: Serial :: wroteBefore <= k + 1 && k < |written| && written[k] == ""))
    }

    ghost predicate StoredNewest(before: seq<Serial>, wroteBefore: nat)
      reads this
    {
      && |stored| == |before| + 1 && stored[..|before|] == before
      && wroteBefore <= stored[|before|] + 1 && stored[|before|] < |written| && written[stored[|before|]] != ""
    }

    /** Any number of applies, each of which may fail or crash anywhere, with the Host at work throughout. */
    method Session(applies: nat)
      requires Valid()
      modifies this
      ensures Valid() && old(history) <= history && old(written) <= written
      ensures solo ==> forall d :: d in history ==> NeverRegressed(d) && NothingLost(d)
    {
      for i := 0 to applies
        invariant Valid() && old(history) <= history && old(written) <= written
      {
        Interfere();
        var outcome := Consume();
      }
    }
  }

  /** An operation that answers with an I/O error or a dead process leaves one fault. */
  ghost function Fault(status: Status): seq<Status> {
    if status == Failed || status == Died then [status] else []
  }

  predicate LaterThan(t: Token, tokens: set<Token>) {
    forall u :: u in tokens ==> u < t
  }

  lemma {:induction false} LaterTokenExists(tokens: set<Token>) returns (t: Token)
    ensures LaterThan(t, tokens)
    decreases |tokens|
  {
    t := 0;
    if tokens != {} {
      var v :| v in tokens;
      var r := LaterTokenExists(tokens - {v});
      t := if v < r then r else v + 1;
      forall u | u in tokens ensures u < t { assert u != v ==> u in tokens - {v}; }
    }
  }

  lemma OldestMayGo(d: Disk, paths: seq<Token>)
    requires Ascending(paths) && paths != [] && Sweepable(d)
    requires forall t :: t in paths <==> t in d.claims
    ensures MayUnlink(d, paths[0])
    ensures Sweepable(Unlink(d, paths[0]))
  {
    var oldest := paths[0];
    var d' := Unlink(d, oldest);
    if d.live.None? {
      var t :| Newest(d.claims, t) && LastStored(d, d.claims[t]);
      if t == oldest {
        forall u | u in d.claims ensures u == t {}
        assert d.claims.Keys == {t};
        assert d'.claims == map[];
      } else {
        assert oldest < t;
        assert Newest(d'.claims, t) && LastStored(d', d'.claims[t]);
      }
    }
  }

  lemma SweepableStays(d: Disk, oldest: Token, e: Disk)
    requires Sweepable(Unlink(d, oldest)) && e.claims == d.claims - {oldest} && e.stored == d.stored
    requires d.live.Some? ==> e.live.Some?
    ensures Sweepable(e)
  {
    if e.live.None? && e.claims != map[] {
      var t :| Newest(Unlink(d, oldest).claims, t) && LastStored(Unlink(d, oldest), Unlink(d, oldest).claims[t]);
      assert Newest(e.claims, t) && LastStored(e, e.claims[t]);
    }
  }

  lemma FirstAndRest(paths: seq<Token>)
    requires Ascending(paths) && paths != []
    ensures forall t :: t in paths[1..] <==> t in paths && t != paths[0]
  {
    assert paths == [paths[0]] + paths[1..];
  }
}
