/**
 * The credential handoff of the DSH plugin (integrations/dsh-plugin/index.js):
 * the live file, the claim files and the credential store, shared with a Host
 * that may replace the live file at any moment and with crashes at any point.
 *
 * A Key is known by its serial, its place in the order of the Host's writes.
 */
module CredentialHandoff {
  import opened Lists

  type Serial = nat

  /** Claim names compare as their tokens: a fixed-width clock reading, then random digits. */
  type Token = nat

  /** `stored` lists the Keys that were put into the credential store, in order. */
  datatype Disk = Disk(live: Option<Serial>, claims: map<Token, Serial>, stored: seq<Serial>, written: seq<string>)

  // ---- What the protocol promises ---------------------------------------------

  ghost predicate Newest(claims: map<Token, Serial>, t: Token) {
    t in claims && forall u :: u in claims ==> u <= t
  }

  /** Keys are Keys the Host wrote; a later claim name never holds an earlier Key; live is never behind a claim. */
  ghost predicate Ordered(d: Disk) {
    && (forall t :: t in d.claims ==> d.claims[t] < |d.written|)
    && (forall t, u :: t in d.claims && u in d.claims && t <= u ==> d.claims[t] <= d.claims[u])
    && (d.live.Some? ==> d.live.value < |d.written|)
    && (d.live.Some? ==> forall t :: t in d.claims ==> d.claims[t] <= d.live.value)
    && (forall k :: k in d.stored ==> k < |d.written|)
  }

  /** The store never went back to an earlier Key. */
  ghost predicate NeverRegressed(d: Disk) {
    forall i, j :: 0 <= i <= j < |d.stored| ==> d.stored[i] <= d.stored[j]
  }

  ghost predicate LastStored(d: Disk, k: Serial) {
    d.stored != [] && d.stored[|d.stored| - 1] == k
  }

  /** The newest Key the Host wrote is in the live file, in a claim file, or the last one stored. */
  ghost predicate NothingLost(d: Disk) {
    d.written != [] ==>
      var k := |d.written| - 1;
      d.live == Some(k) || (exists t :: t in d.claims && d.claims[t] == k) || LastStored(d, k)
  }

  /** Nothing stored is later than Key `k`. */
  ghost predicate NotBehind(d: Disk, k: Serial) {
    forall s :: s in d.stored ==> s <= k
  }

  /** The Key the next apply will claim (live, or else the newest claim) is not behind the store. */
  ghost predicate Ahead(d: Disk) {
    && (d.live.Some? ==> NotBehind(d, d.live.value))
    && (d.live.None? ==> forall t :: Newest(d.claims, t) ==> NotBehind(d, d.claims[t]))
  }

  ghost predicate Consistent(d: Disk) {
    Ordered(d) && NeverRegressed(d) && NothingLost(d) && Ahead(d)
  }

  // ---- The atomic steps -----------------------------------------------------------

  function HostWrite(d: Disk, key: string): Disk {
    d.(live := Some(|d.written|), written := d.written + [key])
  }

  /** rename(live, claim) of a live file that is there. */
  function Claim(d: Disk, t: Token): Disk
    requires d.live.Some?
  {
    d.(live := None, claims := d.claims[t := d.live.value])
  }

  /** copyFile(claim, live, EXCL) when there is no live file. */
  function Restore(d: Disk, t: Token): Disk
    requires t in d.claims
  {
    d.(live := Some(d.claims[t]))
  }

  function Put(d: Disk, k: Serial): Disk {
    d.(stored := d.stored + [k])
  }

  function Unlink(d: Disk, t: Token): Disk {
    d.(claims := d.claims - {t})
  }

  /** A claim may go when live or a newer claim stands behind it, or when it is the last and its Key is stored. */
  ghost predicate MayUnlink(d: Disk, t: Token) {
    && t in d.claims
    && (d.live.Some? || (exists u :: u in d.claims && t < u) || (Newest(d.claims, t) && d.claims.Keys == {t} && LastStored(d, d.claims[t])))
  }

  lemma HostWriteIsConsistent(d: Disk, key: string)
    requires Consistent(d)
    ensures Consistent(HostWrite(d, key))
  {
  }

  lemma ClaimIsConsistent(d: Disk, t: Token)
    requires Consistent(d) && d.live.Some? && forall u :: u in d.claims ==> u < t
    ensures Consistent(Claim(d, t)) && Newest(Claim(d, t).claims, t) && NotBehind(Claim(d, t), d.live.value)
  {
    var d' := Claim(d, t);
    assert forall u :: u in d.claims ==> d'.claims[u] == d.claims[u];
    assert d'.claims[t] == d.live.value;
    assert forall u :: Newest(d'.claims, u) ==> u == t;
  }

  lemma RestoreIsConsistent(d: Disk, t: Token)
    requires Consistent(d) && d.live.None? && Newest(d.claims, t)
    ensures Consistent(Restore(d, t))
  {
  }

  lemma PutLosesNothing(d: Disk, k: Serial)
    requires NothingLost(d) && NotBehind(d, k) && k < |d.written|
    ensures NothingLost(Put(d, k))
  {
    var d', newest := Put(d, k), |d.written| - 1;
    if LastStored(d, newest) {
      assert newest in d.stored && k == newest;
      assert LastStored(d', newest);
    } else if t :| t in d.claims && d.claims[t] == newest {
      assert t in d'.claims && d'.claims[t] == newest;
    }
  }

  lemma PutStaysAhead(d: Disk, t: Token)
    requires Ordered(d) && Ahead(d) && Newest(d.claims, t) && NotBehind(d, d.claims[t])
    ensures Ahead(Put(d, d.claims[t]))
  {
    assert forall u :: Newest(d.claims, u) ==> u == t;
  }

  lemma PutIsConsistent(d: Disk, t: Token)
    requires Consistent(d) && Newest(d.claims, t) && NotBehind(d, d.claims[t])
    ensures Consistent(Put(d, d.claims[t]))
  {
    assert forall i :: 0 <= i < |d.stored| ==> d.stored[i] in d.stored;
    PutLosesNothing(d, d.claims[t]);
    PutStaysAhead(d, t);
  }

  lemma UnlinkLosesNothing(d: Disk, t: Token)
    requires Ordered(d) && NothingLost(d) && MayUnlink(d, t)
    ensures NothingLost(Unlink(d, t))
  {
    var k := |d.written| - 1;
    if d.written != [] && d.live != Some(k) && !LastStored(d, k) {
      var u :| u in d.claims && d.claims[u] == k;
      if u == t {
        var v :| v in d.claims && t < v;
        assert v in Unlink(d, t).claims && Unlink(d, t).claims[v] == k;
      } else {
        assert u in Unlink(d, t).claims && Unlink(d, t).claims[u] == k;
      }
    }
  }

  lemma UnlinkStaysAhead(d: Disk, t: Token)
    requires Ahead(d) && MayUnlink(d, t)
    ensures Ahead(Unlink(d, t))
  {
    if d.live.None? && exists u :: u in d.claims && t < u {
      var u :| u in d.claims && t < u;
      forall n: Token | Newest(Unlink(d, t).claims, n) ensures Newest(d.claims, n) {
        assert u in Unlink(d, t).claims;
        forall w | w in d.claims ensures w <= n { assert w != t ==> w in Unlink(d, t).claims; }
      }
    }
  }

  lemma UnlinkIsConsistent(d: Disk, t: Token)
    requires Consistent(d) && MayUnlink(d, t)
    ensures Consistent(Unlink(d, t))
  {
    UnlinkLosesNothing(d, t);
    UnlinkStaysAhead(d, t);
  }

  /** The Key an apply will claim is always the newest one the Host has written. */
  lemma PendingIsNewest(d: Disk)
    requires Consistent(d)
    ensures d.live.Some? ==> d.live.value == |d.written| - 1
    ensures d.live.None? ==> forall t :: Newest(d.claims, t) ==> d.claims[t] == |d.written| - 1
  {
    if d.written != [] && LastStored(d, |d.written| - 1) { assert |d.written| - 1 in d.stored; }
  }

  /**
   * Why the sweep goes oldest first: removing the newest of two claims after its
   * Key was stored leaves the older Key next in line, behind the store.
   */
  lemma NewestFirstWouldRegress()
    ensures var d := Disk(None, map[0 := 0, 1 := 1], [1], ["a", "b"]);
      Consistent(d) && LastStored(d, d.claims[1]) && Newest(d.claims, 1) && !Ahead(Unlink(d, 1)) && !NeverRegressed(Put(Unlink(d, 1), d.claims[0]))
  {
    var d := Disk(None, map[0 := 0, 1 := 1], [1], ["a", "b"]);
    assert Newest(d.claims, 1) && forall t :: Newest(d.claims, t) ==> t == 1;
    var e := Unlink(d, 1);
    assert Newest(e.claims, 0) && 1 in e.stored && e.claims[0] == 0;
    var f := Put(e, 0);
    assert f.stored[0] == 1 && f.stored[1] == 0;
  }
}
