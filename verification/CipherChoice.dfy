/**
 The server's choice of cipher: the loop over the preferred list with its
 groups of equal preference, proved to find the best cipher both sides accept.
 */
module CipherChoice {
  import opened Common

  datatype Cipher = Cipher(id: nat, minVersion: nat, maxVersion: nat, keyExchange: bv32, auth: bv32)

  /** What the server can do: the negotiated version and the masks of key exchanges and authentication it has. */
  datatype Server = Server(version: nat, keyExchanges: bv32, auths: bv32)

  predicate Supported(c: Cipher, s: Server) {
    && c.minVersion <= s.version <= c.maxVersion
    && c.keyExchange & s.keyExchanges != 0 && c.auth & s.auths != 0
  }

  /** Without groups every entry stands alone. */
  predicate InGroup(flags: Option<seq<bool>>, i: nat)
    requires flags.Some? ==> i < |flags.value|
  {
    flags.Some? && flags.value[i]
  }

  // ---------- what is best ----------

  predicate Eligible(prio: seq<Cipher>, allow: seq<Cipher>, s: Server, i: nat) {
    i < |prio| && Supported(prio[i], s) && prio[i] in allow
  }

  /** Entry `e` is the last of the group of entry `i`: the first from `i` on whose flag is clear. */
  ghost predicate EndsGroup(flags: Option<seq<bool>>, n: nat, i: nat, e: nat)
    requires flags.Some? ==> |flags.value| == n
  {
    i <= e < n && !InGroup(flags, e) && forall k: nat | i <= k < e :: InGroup(flags, k)
  }

  /** Where a cipher first stands in the other list. */
  function Place(allow: seq<Cipher>, c: Cipher): (k: nat)
    requires c in allow
    ensures k < |allow| && allow[k] == c && c !in allow[..k]
  {
    if allow[0] == c then 0
    else
      assert c in allow[1..];
      var k := Place(allow[1..], c);
      assert allow[..k + 1] == [allow[0]] + allow[1..][..k];
      k + 1
  }

  /** A candidate: an eligible entry in a group that is closed by a clear flag. */
  ghost predicate Candidate(prio: seq<Cipher>, flags: Option<seq<bool>>, allow: seq<Cipher>, s: Server, i: nat, e: nat)
    requires flags.Some? ==> |flags.value| == |prio|
  {
    Eligible(prio, allow, s, i) && EndsGroup(flags, |prio|, i, e)
  }

  /** From the earliest group that has a candidate, the one that stands first in the other list. */
  ghost predicate Best(prio: seq<Cipher>, flags: Option<seq<bool>>, allow: seq<Cipher>, s: Server, i: nat, e: nat)
    requires flags.Some? ==> |flags.value| == |prio|
  {
    && Candidate(prio, flags, allow, s, i, e)
    && forall j: nat, d: nat | Candidate(prio, flags, allow, s, j, d) ::
         e < d || (e == d && Place(allow, prio[i]) <= Place(allow, prio[j]))
  }

  /** There is only one best cipher. */
  lemma BestIsUnique(prio: seq<Cipher>, flags: Option<seq<bool>>, allow: seq<Cipher>, s: Server, i: nat, e: nat, j: nat, d: nat)
    requires flags.Some? ==> |flags.value| == |prio|
    requires Best(prio, flags, allow, s, i, e) && Best(prio, flags, allow, s, j, d)
    ensures prio[i] == prio[j] && e == d
  {
    assert allow[Place(allow, prio[i])] == prio[i] && allow[Place(allow, prio[j])] == prio[j];
  }

  /** When the last flag is clear every group is closed, and a candidate is just an eligible entry. */
  lemma {:induction false} EveryGroupCloses(flags: Option<seq<bool>>, n: nat, i: nat) returns (e: nat)
    requires (flags.Some? ==> |flags.value| == n) && i < n && !InGroup(flags, n - 1)
    ensures EndsGroup(flags, n, i, e)
    decreases n - i
  {
    if !InGroup(flags, i) {
      e := i;
    } else {
      e := EveryGroupCloses(flags, n, i + 1);
    }
  }

  // ---------- the loop ----------

  /** sk_SSL_CIPHER_find on a list without a comparison function. */
  method Find(allow: seq<Cipher>, c: Cipher) returns (index: Option<nat>)
    ensures index == if c in allow then Some(Place(allow, c)) else None
  {
    var i := 0;
    while i < |allow|
      invariant 0 <= i <= |allow| && c !in allow[..i]
    {
      if allow[i] == c {
        PlaceIs(allow, c, i);
        return Some(i);
      }
      assert allow[..i + 1] == allow[..i] + [allow[i]];
      i := i + 1;
    }
    assert allow[..i] == allow;
    return None;
  }

  lemma PlaceIs(allow: seq<Cipher>, c: Cipher, i: nat)
    requires i < |allow| && allow[i] == c && c !in allow[..i]
    ensures Place(allow, c) == i
  {
    var k := Place(allow, c);
    forall j | 0 <= j < i ensures allow[j] != c { assert allow[..i][j] == allow[j]; }
    forall j | 0 <= j < k ensures allow[j] != c { assert allow[..k][j] == allow[j]; }
  }

  /** The start of the group that entry `i` is in or begins. */
  ghost predicate OpenFrom(flags: Option<seq<bool>>, b: nat, i: nat)
    requires flags.Some? ==> i <= |flags.value|
  {
    b <= i && (forall k: nat | b <= k < i :: InGroup(flags, k)) && (b == 0 || !InGroup(flags, b - 1))
  }

  /** `m` is the smallest place of an eligible entry from `b` up to `i`; None when there is none. */
  ghost predicate Least(prio: seq<Cipher>, allow: seq<Cipher>, s: Server, b: nat, i: nat, m: Option<nat>) {
    && (m.None? ==> forall j: nat | b <= j < i :: !Eligible(prio, allow, s, j))
    && (m.Some? ==>
         && (exists j: nat :: b <= j < i && Eligible(prio, allow, s, j) && Place(allow, prio[j]) == m.value)
         && forall j: nat | b <= j < i && Eligible(prio, allow, s, j) :: m.value <= Place(allow, prio[j]))
  }

  /** The smallest place so far, with entry `i` taken in. */
  function Lower(prio: seq<Cipher>, allow: seq<Cipher>, s: Server, i: nat, m: Option<nat>): Option<nat>
    requires i < |prio|
  {
    if !Eligible(prio, allow, s, i) then m
    else if m.None? || m.value > Place(allow, prio[i]) then Some(Place(allow, prio[i]))
    else m
  }

  lemma LeastNext(prio: seq<Cipher>, allow: seq<Cipher>, s: Server, b: nat, i: nat, m: Option<nat>)
    requires b <= i < |prio| && Least(prio, allow, s, b, i, m)
    ensures Least(prio, allow, s, b, i + 1, Lower(prio, allow, s, i, m))
  {
  }

  /** ssl3_choose_cipher, after the two lists have been put in the places the options ask for. */
  method Choose(prio: seq<Cipher>, flags: Option<seq<bool>>, allow: seq<Cipher>, s: Server) returns (choice: Option<Cipher>)
    requires flags.Some? ==> |flags.value| == |prio|
    ensures choice.None? <==> forall i: nat, e: nat :: !Candidate(prio, flags, allow, s, i, e)
    ensures choice.Some? ==> exists i: nat, e: nat :: Best(prio, flags, allow, s, i, e) && choice.value == prio[i]
  {
    hide Least, Best;
    NothingYet(prio, allow, s, 0);
    var groupMin: Option<nat> := None;
    ghost var b := 0;
    var i := 0;
    while i < |prio|
      invariant 0 <= i <= |prio| && OpenFrom(flags, b, i)
      invariant Least(prio, allow, s, b, i, groupMin)
      invariant forall j: nat | j < b :: !Eligible(prio, allow, s, j)
    {
      var c := prio[i];
      LeastNext(prio, allow, s, b, i, groupMin);
      if Supported(c, s) {
        var index := Find(allow, c);
        if index.Some? {
          if InGroup(flags, i) {
            if groupMin.None? || groupMin.value > index.value {
              groupMin := index;
            }
          } else {
            var best := if groupMin.Some? && groupMin.value < index.value then groupMin.value else index.value;
            GroupDecides(prio, flags, allow, s, b, i, best);
            return Some(allow[best]);
          }
        }
      }
      if !InGroup(flags, i) {
        if groupMin.Some? {
          GroupDecides(prio, flags, allow, s, b, i, groupMin.value);
          return Some(allow[groupMin.value]);
        }
        NoneEligible(prio, allow, s, b, i + 1);
        b := i + 1;
        NothingYet(prio, allow, s, b);
      }
      i := i + 1;
    }
    NoCandidate(prio, flags, allow, s, b);
    return None;
  }

  lemma NothingYet(prio: seq<Cipher>, allow: seq<Cipher>, s: Server, b: nat)
    ensures Least(prio, allow, s, b, b, None)
  {
  }

  lemma NoneEligible(prio: seq<Cipher>, allow: seq<Cipher>, s: Server, b: nat, i: nat)
    requires Least(prio, allow, s, b, i, None)
    ensures forall j: nat | b <= j < i :: !Eligible(prio, allow, s, j)
  {
  }

  /** Entries of a group that never closes are no candidates. */
  lemma NoCandidate(prio: seq<Cipher>, flags: Option<seq<bool>>, allow: seq<Cipher>, s: Server, b: nat)
    requires (flags.Some? ==> |flags.value| == |prio|) && OpenFrom(flags, b, |prio|)
    requires forall j: nat | j < b :: !Eligible(prio, allow, s, j)
    ensures forall i: nat, e: nat :: !Candidate(prio, flags, allow, s, i, e)
  {
  }

  /** The first group with an eligible entry settles the choice when it closes. */
  lemma GroupDecides(prio: seq<Cipher>, flags: Option<seq<bool>>, allow: seq<Cipher>, s: Server, b: nat, e: nat, m: nat)
    requires (flags.Some? ==> |flags.value| == |prio|) && e < |prio|
    requires OpenFrom(flags, b, e) && !InGroup(flags, e) && Least(prio, allow, s, b, e + 1, Some(m))
    requires forall j: nat | j < b :: !Eligible(prio, allow, s, j)
    ensures m < |allow| && exists i: nat :: Best(prio, flags, allow, s, i, e) && prio[i] == allow[m]
    ensures exists i: nat :: Candidate(prio, flags, allow, s, i, e)
  {
    var i: nat :| b <= i < e + 1 && Eligible(prio, allow, s, i) && Place(allow, prio[i]) == m;
    assert EndsGroup(flags, |prio|, i, e);
    forall j: nat, d: nat | Candidate(prio, flags, allow, s, j, d)
      ensures e < d || (e == d && m <= Place(allow, prio[j]))
    {
      assert b <= j;
    }
    assert Best(prio, flags, allow, s, i, e);
  }

  /** The last group is closed. */
  predicate LastCloses(groups: seq<bool>) {
    groups != [] ==> !groups[|groups| - 1]
  }

  /** The whole choice: with server preference the groups count, otherwise the client's order alone. */
  method ChooseCipher(client: seq<Cipher>, server: seq<Cipher>, groups: seq<bool>, serverPreference: bool, s: Server)
    returns (choice: Option<Cipher>)
    requires |groups| == |server|
    ensures !serverPreference || LastCloses(groups) ==>
      (choice.None? <==> forall c: Cipher | c in client && c in server :: !Supported(c, s))
    ensures choice.Some? ==> choice.value in client && choice.value in server && Supported(choice.value, s)
    ensures serverPreference && choice.None? ==> forall i: nat, e: nat :: !Candidate(server, Some(groups), client, s, i, e)
    ensures choice.Some? && serverPreference ==>
      exists i: nat, e: nat :: Best(server, Some(groups), client, s, i, e) && choice.value == server[i]
    ensures choice.Some? && !serverPreference ==>
      exists i: nat, e: nat :: Best(client, None, server, s, i, e) && choice.value == client[i]
  {
    var prio, allow := if serverPreference then server else client, if serverPreference then client else server;
    var flags := if serverPreference then Some(groups) else None;
    choice := Choose(prio, flags, allow, s);
    if !serverPreference || LastCloses(groups) {
      forall c: Cipher | c in client && c in server && Supported(c, s) ensures choice.Some? {
        var i: nat :| i < |prio| && prio[i] == c;
        var e := EveryGroupCloses(flags, |prio|, i);
        assert Candidate(prio, flags, allow, s, i, e);
      }
    }
  }

  // ---------- when the choice finds every shared cipher ----------

  /** Some server can do it. */
  predicate Usable(c: Cipher) {
    c.minVersion <= c.maxVersion && c.keyExchange != 0 && c.auth != 0
  }

  /** No group from entry i on closes. */
  ghost predicate StaysOpen(groups: seq<bool>, i: nat) {
    forall k | i <= k < |groups| :: groups[k]
  }

  /** A cipher that some server can do stands in the open group alone. */
  ghost predicate Stranded(server: seq<Cipher>, groups: seq<bool>, c: Cipher) {
    c in server && Usable(c) && forall i | 0 <= i < |server| && server[i] == c :: StaysOpen(groups, i)
  }

  ghost predicate Shared(client: seq<Cipher>, server: seq<Cipher>, s: Server) {
    exists c: Cipher :: c in client && c in server && Supported(c, s)
  }

  /** Whatever the client offers and the server can do, a shared cipher makes for a candidate. */
  ghost predicate Complete(server: seq<Cipher>, groups: seq<bool>)
    requires |groups| == |server|
  {
    forall client: seq<Cipher>, s: Server | Shared(client, server, s) ::
      exists i: nat, e: nat :: Candidate(server, Some(groups), client, s, i, e)
  }

  /** A server that can do the cipher. */
  function Fitting(c: Cipher): (s: Server)
    ensures Usable(c) ==> Supported(c, s)
  {
    assert c.keyExchange & 0xFFFF_FFFF == c.keyExchange && c.auth & 0xFFFF_FFFF == c.auth;
    Server(c.minVersion, 0xFFFF_FFFF, 0xFFFF_FFFF)
  }

  lemma {:induction false} GroupEnds(groups: seq<bool>, i: nat, k: nat) returns (e: nat)
    requires i <= k < |groups| && !groups[k]
    ensures EndsGroup(Some(groups), |groups|, i, e)
    decreases k - i
  {
    if !groups[i] {
      e := i;
    } else {
      e := GroupEnds(groups, i + 1, k);
    }
  }

  /** For any list: the choice misses a shared cipher, for some client and server, exactly when one is stranded. */
  lemma CompleteExactly(server: seq<Cipher>, groups: seq<bool>)
    requires |groups| == |server|
    ensures Complete(server, groups) <==> forall c | c in server :: !Stranded(server, groups, c)
  {
    forall c | Stranded(server, groups, c) ensures !Complete(server, groups) {
      var s := Fitting(c);
      assert Shared([c], server, s);
      forall i: nat, e: nat ensures !Candidate(server, Some(groups), [c], s, i, e) {
        assert e < |groups| && i <= e && StaysOpen(groups, i) ==> groups[e];
      }
    }
    if forall c | c in server :: !Stranded(server, groups, c) {
      forall client: seq<Cipher>, s: Server | Shared(client, server, s)
        ensures exists i: nat, e: nat :: Candidate(server, Some(groups), client, s, i, e)
      {
        var c: Cipher :| c in client && c in server && Supported(c, s);
        NonZero(c, s);
        assert !Stranded(server, groups, c);
        var i: nat :| i < |server| && server[i] == c && !StaysOpen(groups, i);
        var k: nat :| i <= k < |groups| && !groups[k];
        var e := GroupEnds(groups, i, k);
        assert Candidate(server, Some(groups), client, s, i, e);
      }
    }
  }

  lemma NonZero(c: Cipher, s: Server)
    requires Supported(c, s)
    ensures Usable(c)
  {
    assert c.keyExchange & s.keyExchanges != 0 ==> c.keyExchange != 0;
    assert c.auth & s.auths != 0 ==> c.auth != 0;
  }

  /** In a list of different ciphers, each of use to some server: nothing is missed exactly when the last group closes. */
  lemma LastFlagDecides(server: seq<Cipher>, groups: seq<bool>)
    requires |groups| == |server| && (forall i, j | 0 <= i < j < |server| :: server[i] != server[j])
    requires forall c | c in server :: Usable(c)
    ensures Complete(server, groups) <==> LastCloses(groups)
  {
    CompleteExactly(server, groups);
    if server != [] {
      var n := |server|;
      var last := server[n - 1];
      assert last in server && Usable(last);
      assert StaysOpen(groups, n - 1) <==> groups[n - 1];
      assert Stranded(server, groups, last) <==> groups[n - 1];
      forall c | Stranded(server, groups, c) ensures groups[n - 1] {
        var i :| 0 <= i < n && server[i] == c;
        assert StaysOpen(groups, i);
      }
    }
  }
}
