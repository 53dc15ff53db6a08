/**
 What becomes of each kind of record, over all runs: by the key changes in the
 run, the ChangeCipherSpecs that came and those that were waited for, and the
 fragments that a record holds.
 */
module DtlsRecords {
  import opened Common
  import opened DtlsFormat
  import opened DtlsReassembly
  import opened DtlsReceive
  import opened DtlsEndToEnd

  /** How often the read keys have been changed. */
  function KeyChanges(steps: seq<Step>): nat {
    if steps == [] then 0 else (if steps[0].ChangeReadKeys? then 1 else 0) + KeyChanges(steps[1..])
  }

  lemma OpenKeepsEpoch(r: Recv, typ: nat, payload: seq<byte>, maxLen: nat)
    requires RingOk(r)
    ensures var r' := OpenHandshake(r, typ, payload, maxLen).0;
      r'.epoch == r.epoch && r'.nullCipher == r.nullCipher && (typ == 22 ==> r'.hasChangeCipherSpec == r.hasChangeCipherSpec)
  {
    FragmentsKeepEpoch(r, payload, maxLen);
  }

  lemma {:induction false} FragmentsKeepEpoch(r: Recv, bs: seq<byte>, maxLen: nat)
    requires RingOk(r)
    ensures var r' := OpenFragments(r, bs, maxLen).0;
      r'.epoch == r.epoch && r'.nullCipher == r.nullCipher && r'.hasChangeCipherSpec == r.hasChangeCipherSpec
    decreases |bs|
  {
    hide ParseFragment;
    if bs != [] && ParseFragment(bs).Got? {
      var (r', ok) := OpenFragment(r, ParseFragment(bs).value, maxLen);
      if ok { FragmentsKeepEpoch(r', ParseFragment(bs).rest, maxLen); }
    }
  }

  lemma StepEpoch(w: World, s: Step)
    requires Allowed(w, s)
    ensures var r, r' := w.recv, Do(w, s).recv;
      && RingOk(r')
      && r'.epoch == (if s.ChangeReadKeys? then (r.epoch + 1) % 0x1_0000 else r.epoch)
      && r'.nullCipher == (r.nullCipher && !s.ChangeReadKeys?)
  {
    hide OpenHandshake, Authentic;
    match s
    case Receive(payload, maxLen) => OpenKeepsEpoch(w.recv, 22, payload, maxLen);
    case ReceiveOther(typ, payload) => OpenKeepsEpoch(w.recv, typ, payload, 0);
    case AwaitChangeCipherSpec(typ, payload, maxLen) => OpenKeepsEpoch(w.recv, typ, payload, maxLen);
    case Peek => FlagKeeps(w.recv);
    case _ =>
  }

  /** The receiver reads in the clear until the first key change, and its epoch counts the changes modulo 2^16. */
  lemma {:induction false} EpochCounts(w: World, steps: seq<Step>, w': World)
    requires RingOk(w.recv) && Reaches(w, steps, w')
    ensures RingOk(w'.recv) && w'.recv.epoch == (w.recv.epoch + KeyChanges(steps)) % 0x1_0000
    ensures w'.recv.nullCipher == (w.recv.nullCipher && KeyChanges(steps) == 0)
    decreases |steps|
  {
    hide Allowed, Do;
    if steps != [] {
      StepEpoch(w, steps[0]);
      EpochCounts(Do(w, steps[0]), steps[1..], w');
    }
  }

  /**
   In every run, a record of application data: an error until the read keys have
   been changed for the first time, and dropped from then on; either way the
   receiver stays as it was.
   */
  lemma ApplicationData(steps: seq<Step>, w: World, payload: seq<byte>, maxLen: nat)
    requires Reaches(Start(), steps, w)
    ensures RingOk(w.recv) && OpenHandshake(w.recv, 23, payload, maxLen) == (w.recv, if KeyChanges(steps) == 0 then Error else Discard)
  {
    hide Reaches;
    EpochCounts(Start(), steps, w);
  }

  /** A ChangeCipherSpec: taken, and remembered, exactly when it is the byte 1 and the read keys have not been changed. */
  lemma ChangeCipherSpecRecord(steps: seq<Step>, w: World, payload: seq<byte>, maxLen: nat)
    requires Reaches(Start(), steps, w)
    ensures RingOk(w.recv)
    ensures OpenHandshake(w.recv, 20, payload, maxLen) ==
      if KeyChanges(steps) == 0 && payload == [1] then (w.recv.(hasChangeCipherSpec := true), Success) else (w.recv, Error)
  {
    hide Reaches;
    EpochCounts(Start(), steps, w);
  }

  /** Alerts do not come here, and records of any other type are errors. */
  lemma OtherRecord(steps: seq<Step>, w: World, typ: nat, payload: seq<byte>, maxLen: nat)
    requires Reaches(Start(), steps, w) && typ != 20 && typ != 22 && typ != 23
    ensures RingOk(w.recv) && OpenHandshake(w.recv, typ, payload, maxLen) == (w.recv, Error)
  {
    hide Reaches;
    EpochCounts(Start(), steps, w);
  }

  // ---------- when a ChangeCipherSpec waits ----------

  /** Step i brought a ChangeCipherSpec in the clear, and nobody has waited for one since. */
  predicate Brought(steps: seq<Step>, i: nat)
    requires i < |steps|
  {
    && steps[i] == ReceiveOther(20, [1]) && KeyChanges(steps[..i]) == 0
    && forall j | i < j < |steps| :: !steps[j].AwaitChangeCipherSpec?
  }

  predicate NoneAwaited(steps: seq<Step>) {
    forall j | 0 <= j < |steps| :: !steps[j].AwaitChangeCipherSpec?
  }

  lemma StepFlag(w: World, s: Step)
    requires Allowed(w, s)
    ensures RingOk(Do(w, s).recv)
    ensures Do(w, s).recv.hasChangeCipherSpec <==>
      (s == ReceiveOther(20, [1]) && w.recv.nullCipher) || (w.recv.hasChangeCipherSpec && !s.AwaitChangeCipherSpec?)
  {
    hide OpenFragments, Authentic;
    match s
    case Receive(payload, maxLen) => OpenKeepsEpoch(w.recv, 22, payload, maxLen);
    case AwaitChangeCipherSpec(typ, payload, maxLen) => OpenKeepsEpoch(w.recv, typ, payload, maxLen);
    case Peek => FlagKeeps(w.recv);
    case _ =>
  }

  lemma {:induction false} FlagFrom(w: World, steps: seq<Step>, w': World)
    requires RingOk(w.recv) && Reaches(w, steps, w')
    ensures w'.recv.hasChangeCipherSpec <==>
      (w.recv.hasChangeCipherSpec && NoneAwaited(steps)) || (w.recv.nullCipher && exists i :: 0 <= i < |steps| && Brought(steps, i))
    decreases |steps|
  {
    hide Allowed, Do;
    if steps != [] {
      var s, t := steps[0], steps[1..];
      StepFlag(w, s);
      StepEpoch(w, s);
      FlagFrom(Do(w, s), t, w');
      forall i | 0 < i < |steps| ensures Brought(steps, i) <==> !s.ChangeReadKeys? && Brought(t, i - 1) {
        assert steps[..i][1..] == t[..i - 1];
        assert forall j | i < j < |steps| :: steps[j] == t[j - 1];
        assert forall j | i - 1 < j < |t| :: t[j] == steps[j + 1];
      }
      assert forall j | 0 <= j < |t| :: t[j] == steps[j + 1];
      assert Brought(steps, 0) <==> s == ReceiveOther(20, [1]) && NoneAwaited(t);
      if exists i :: 0 <= i < |t| && Brought(t, i) {
        var i :| 0 <= i < |t| && Brought(t, i);
        assert Brought(steps, i + 1) <==> !s.ChangeReadKeys?;
      }
    }
  }

  /** In every run: a ChangeCipherSpec waits exactly when one came before the first key change and none was waited for since. */
  lemma ChangeCipherSpecWaits(steps: seq<Step>, w: World)
    requires Reaches(Start(), steps, w)
    ensures w.recv.hasChangeCipherSpec <==> exists i :: 0 <= i < |steps| && Brought(steps, i)
  {
    FlagFrom(Start(), steps, w);
  }

  /**
   Waiting for a ChangeCipherSpec: when one waits it is used up and the record is
   not read; otherwise it succeeds exactly on a record that is one, in the clear,
   and any other record has the effect and, if it fails, the verdict it always has.
   */
  lemma Awaited(steps: seq<Step>, w: World, typ: nat, payload: seq<byte>, maxLen: nat)
    requires Reaches(Start(), steps, w)
    ensures RingOk(w.recv)
    ensures var out := OpenChangeCipherSpec(w.recv, typ, payload, maxLen);
      var read := OpenHandshake(w.recv, typ, payload, maxLen);
      && (w.recv.hasChangeCipherSpec ==> out == (w.recv.(hasChangeCipherSpec := false), Success))
      && (!w.recv.hasChangeCipherSpec ==>
            && (out.1 == Success <==> typ == 20 && payload == [1] && KeyChanges(steps) == 0)
            && (out.1 == Success ==> out.0 == w.recv)
            && (out.1 != Success ==> out.0 == read.0 && out.1 == if read.1 == Success then Discard else read.1))
  {
    hide Reaches, OpenFragments;
    EpochCounts(Start(), steps, w);
    OpenKeepsEpoch(w.recv, typ, payload, maxLen);
  }

  // ---------- the fragments in a record ----------

  /** The bytes of these fragments, one after another. */
  function Joined(fs: seq<Fragment>): seq<byte>
    requires forall f | f in fs :: Fits(f)
  {
    if fs == [] then [] else FragmentBytes(fs[0]) + Joined(fs[1..])
  }

  /** The receiver takes them in turn, up to the first that it refuses. */
  ghost function InTurn(r: Recv, fs: seq<Fragment>, maxLen: nat): (Recv, bool)
    requires RingOk(r) && forall f | f in fs :: Fits(f)
    decreases |fs|
  {
    if fs == [] then (r, true)
    else
      var (r', ok) := OpenFragment(r, fs[0], maxLen);
      if ok then InTurn(r', fs[1..], maxLen) else (r', false)
  }

  /** A record may hold any number of fragments; each has its effect, in order. */
  lemma {:induction false} ManyFragments(r: Recv, fs: seq<Fragment>, maxLen: nat)
    requires RingOk(r) && forall f | f in fs :: Fits(f)
    ensures OpenFragments(r, Joined(fs), maxLen) == InTurn(r, fs, maxLen)
    decreases |fs|
  {
    hide OpenFragment, ParseFragment, FragmentBytes;
    if fs != [] {
      ParseRoundTrip(fs[0], Joined(fs[1..]));
      var (r', ok) := OpenFragment(r, fs[0], maxLen);
      if ok { ManyFragments(r', fs[1..], maxLen); }
    }
  }

  /** And nothing else is accepted: bytes left over that are no fragment make the record an error. */
  lemma {:induction false} OnlyFragments(r: Recv, bs: seq<byte>, maxLen: nat) returns (fs: seq<Fragment>)
    requires RingOk(r) && OpenFragments(r, bs, maxLen).1
    ensures (forall f | f in fs :: Fits(f)) && bs == Joined(fs)
    decreases |bs|
  {
    hide OpenFragment, ParseFragment, FragmentBytes;
    fs := [];
    if bs != [] {
      var f, rest := ParseFragment(bs).value, ParseFragment(bs).rest;
      ParseInverse(bs);
      var more := OnlyFragments(OpenFragment(r, f, maxLen).0, rest, maxLen);
      fs := [f] + more;
      assert fs[1..] == more;
    }
  }
}
