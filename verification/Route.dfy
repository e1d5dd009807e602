/**
 Reference-counted mixer routes (audio_route/audio_route.c): paths of mixer controls that are
 applied and reset, several of them sharing a control. Each control keeps the value it was
 last sent, the value to send next, the value to go back to, and how many paths use it.
 */
module Route {

  type Value = seq<int>

  /** Byte and integer controls are sent as arrays, of an enumeration only the first value is sent. */
  datatype Kind = Array | Enumerated | Unsupported

  datatype State = State(
    kind: Kind, oldValue: Value, newValue: Value, resetValue: Value, activeCount: nat,
    device: Value)  // what the driver was told

  datatype Setting = Setting(ctl: nat, value: Value)

  datatype Direction = Forward | Reverse | ReverseReset

  datatype Mixer = Mixer(states: seq<State>, sends: seq<nat>)

  predicate Sized(st: State) {
    |st.oldValue| == |st.newValue| == |st.resetValue| == |st.device| && (st.kind == Enumerated ==> |st.device| > 0)
  }

  predicate AllSized(states: seq<State>) {
    forall c: nat :: c < |states| ==> Sized(states[c])
  }

  /** A path names each control at most once, with as many values as the control has. */
  predicate PathOk(states: seq<State>, path: seq<Setting>) {
    && (forall i: nat :: i < |path| ==> path[i].ctl < |states| && |path[i].value| == |states[path[i].ctl].device|)
    && forall i: nat, j: nat :: i < j < |path| ==> path[i].ctl != path[j].ctl
  }

  // ---- one control

  /** mixer_ctl_set_array, or mixer_ctl_set_value of the first value */
  function Sent(st: State): Value
    requires Sized(st)
  {
    if st.kind == Enumerated then st.device[0 := st.newValue[0]] else st.newValue
  }

  /** mixer_set_value_if_changed */
  function SetIfChanged(st: State): State
    requires Sized(st)
  {
    if st.oldValue == st.newValue then st else st.(device := Sent(st), oldValue := st.newValue)
  }

  /** What update_path does with one control. */
  function UpdateOne(dir: Direction, st: State): State
    requires Sized(st)
  {
    if dir == Forward then SetIfChanged(st.(activeCount := st.activeCount + 1))
    else if st.activeCount == 0 then SetIfChanged(st)
    else if dir == ReverseReset then SetIfChanged(st.(activeCount := 0))
    else if st.activeCount > 1 then st.(activeCount := st.activeCount - 1, newValue := st.oldValue)
    else SetIfChanged(st.(activeCount := 0))
  }

  predicate Sends(dir: Direction, st: State) {
    st.oldValue != st.newValue && !(dir == Reverse && st.activeCount > 1)
  }

  // ---- one call

  function UpdateCtl(m: Mixer, c: nat, dir: Direction): Mixer
    requires c < |m.states| && AllSized(m.states)
  {
    if m.states[c].kind == Unsupported then m
    else Mixer(m.states[c := UpdateOne(dir, m.states[c])], m.sends + if Sends(dir, m.states[c]) then [c] else [])
  }

  predicate Ctls(states: seq<State>, ctls: seq<nat>) {
    forall i: nat :: i < |ctls| ==> ctls[i] < |states|
  }

  predicate Distinct(ctls: seq<nat>) {
    forall i: nat, j: nat :: i < j < |ctls| ==> ctls[i] != ctls[j]
  }

  lemma UpdateSized(m: Mixer, c: nat, dir: Direction)
    requires c < |m.states| && AllSized(m.states)
    ensures AllSized(UpdateCtl(m, c, dir).states) && |UpdateCtl(m, c, dir).states| == |m.states|
  {
  }

  /** The controls of a path, one after the other. */
  function UpdateList(m: Mixer, ctls: seq<nat>, dir: Direction): (r: Mixer)
    requires AllSized(m.states) && Ctls(m.states, ctls)
    ensures |r.states| == |m.states| && AllSized(r.states)
    decreases |ctls|
  {
    if ctls == [] then m
    else
      UpdateSized(m, ctls[|ctls| - 1], dir);
      var before := UpdateList(m, ctls[..|ctls| - 1], dir);
      UpdateSized(before, ctls[|ctls| - 1], dir);
      UpdateCtl(before, ctls[|ctls| - 1], dir)
  }

  /** Which of the controls are sent, in this order, if each is as in states. */
  function Changing(states: seq<State>, ctls: seq<nat>, dir: Direction): seq<nat>
    requires Ctls(states, ctls)
  {
    if ctls == [] then []
    else
      var c := ctls[|ctls| - 1];
      Changing(states, ctls[..|ctls| - 1], dir)
      + if states[c].kind != Unsupported && Sends(dir, states[c]) then [c] else []
  }

  /** Controls are updated independently of each other, and sent in the order of the list. */
  lemma {:induction false} UpdateListIs(m: Mixer, ctls: seq<nat>, dir: Direction)
    requires AllSized(m.states) && Ctls(m.states, ctls) && Distinct(ctls)
    ensures forall c: nat :: c < |m.states| ==>
              UpdateList(m, ctls, dir).states[c]
              == if c in ctls && m.states[c].kind != Unsupported then UpdateOne(dir, m.states[c]) else m.states[c]
    ensures UpdateList(m, ctls, dir).sends == m.sends + Changing(m.states, ctls, dir)
    decreases |ctls|
  {
    hide UpdateOne, Sends, UpdateCtl, Sized, Distinct;
    if ctls != [] {
      var n := |ctls| - 1;
      LastIsNew(ctls);
      UpdateListIs(m, ctls[..n], dir);
      var before := UpdateList(m, ctls[..n], dir);
      UpdateSized(m, ctls[n], dir);
      UpdateCtlIs(before, ctls[n], dir);
      forall c: nat | c < |m.states|
        ensures UpdateList(m, ctls, dir).states[c]
          == if c in ctls && m.states[c].kind != Unsupported then UpdateOne(dir, m.states[c]) else m.states[c]
      {
        assert c in ctls <==> c == ctls[n] || c in ctls[..n];
      }
    }
  }

  lemma LastIsNew(ctls: seq<nat>)
    requires Distinct(ctls) && ctls != []
    ensures ctls[|ctls| - 1] !in ctls[..|ctls| - 1] && Distinct(ctls[..|ctls| - 1])
    ensures forall c: nat :: c in ctls <==> c == ctls[|ctls| - 1] || c in ctls[..|ctls| - 1]
  {
    assert ctls == ctls[..|ctls| - 1] + [ctls[|ctls| - 1]];
  }

  lemma UpdateCtlIs(m: Mixer, c: nat, dir: Direction)
    requires c < |m.states| && AllSized(m.states)
    ensures
      var r := UpdateCtl(m, c, dir);
      && |r.states| == |m.states|
      && (forall k: nat :: k < |m.states| && k != c ==> r.states[k] == m.states[k])
      && r.states[c] == (if m.states[c].kind != Unsupported then UpdateOne(dir, m.states[c]) else m.states[c])
      && r.sends == m.sends + if m.states[c].kind != Unsupported && Sends(dir, m.states[c]) then [c] else []
  {
    hide UpdateOne, Sends;
  }

  function CtlsOf(path: seq<Setting>): (ctls: seq<nat>)
    ensures |ctls| == |path|
  {
    seq(|path|, i requires 0 <= i < |path| => path[i].ctl)
  }

  function Reversed(s: seq<nat>): (r: seq<nat>)
    ensures |r| == |s|
  {
    seq(|s|, i requires 0 <= i < |s| => s[|s| - 1 - i])
  }

  function InOrder(path: seq<Setting>, dir: Direction): seq<nat> {
    if dir == Forward then CtlsOf(path) else Reversed(CtlsOf(path))
  }

  predicate Uses(path: seq<Setting>, c: nat) {
    exists i: nat :: i < |path| && path[i].ctl == c
  }

  ghost function ValueIn(path: seq<Setting>, c: nat): (v: Value)
    requires Uses(path, c)
    ensures exists i: nat :: i < |path| && path[i] == Setting(c, v)
  {
    var i: nat :| i < |path| && path[i].ctl == c;
    path[i].value
  }

  lemma InOrderOk(states: seq<State>, path: seq<Setting>, dir: Direction)
    requires PathOk(states, path)
    ensures Ctls(states, InOrder(path, dir)) && Distinct(InOrder(path, dir))
    ensures forall c: nat :: c in InOrder(path, dir) <==> Uses(path, c)
  {
    var ctls := InOrder(path, dir);
    forall c: nat
      ensures c in ctls <==> Uses(path, c)
    {
      if Uses(path, c) {
        var i: nat :| i < |path| && path[i].ctl == c;
        assert ctls[if dir == Forward then i else |path| - 1 - i] == c;
      }
    }
  }

  // ---- calls and runs, one control at a time

  datatype Op = Apply(path: seq<Setting>) | Reset(path: seq<Setting>) | ForceReset(path: seq<Setting>)

  /** What one call makes of control c. */
  ghost function CallOne(op: Op, st: State, c: nat): State
    requires Sized(st) && (Uses(op.path, c) ==> |ValueIn(op.path, c)| == |st.device|)
  {
    if st.kind == Unsupported || !Uses(op.path, c) then st
    else match op
      case Apply(path) => UpdateOne(Forward, st.(newValue := ValueIn(path, c)))
      case Reset(_) => UpdateOne(Reverse, st.(newValue := st.resetValue))
      case ForceReset(_) => UpdateOne(ReverseReset, st.(newValue := st.resetValue))
  }

  /** Between calls: nothing is left to send, an unused control is at its reset value, and the driver knows it. */
  predicate Settled(st: State) {
    && Sized(st)
    && (st.kind != Unsupported ==>
          st.oldValue == st.newValue && (st.activeCount == 0 ==> st.oldValue == st.resetValue) && DeviceKnows(st))
  }

  predicate DeviceKnows(st: State)
    requires Sized(st)
  {
    if st.kind == Enumerated then st.device[0] == st.oldValue[0] else st.device == st.oldValue
  }

  predicate Fitting(op: Op, size: nat, c: nat) {
    forall i: nat :: i < |op.path| && op.path[i].ctl == c ==> |op.path[i].value| == size
  }

  lemma CallSettles(op: Op, st: State, c: nat)
    requires Settled(st) && Fitting(op, |st.device|, c)
    ensures Settled(CallOne(op, st, c))
    ensures CallOne(op, st, c).kind == st.kind && CallOne(op, st, c).resetValue == st.resetValue
    ensures |CallOne(op, st, c).device| == |st.device|
    ensures st.kind == Enumerated ==> CallOne(op, st, c).device[1..] == st.device[1..]
  {
  }

  predicate AllFitting(ops: seq<Op>, size: nat, c: nat) {
    forall k: nat :: k < |ops| ==> Fitting(ops[k], size, c)
  }

  ghost function RunOne(ops: seq<Op>, st: State, c: nat): (r: State)
    requires Settled(st) && AllFitting(ops, |st.device|, c)
    ensures Settled(r) && r.kind == st.kind && r.resetValue == st.resetValue && |r.device| == |st.device|
  {
    if ops == [] then st
    else
      var before := RunOne(ops[..|ops| - 1], st, c);
      CallSettles(ops[|ops| - 1], before, c);
      CallOne(ops[|ops| - 1], before, c)
  }

  /** How many uses of control c the calls left. */
  function CountIn(ops: seq<Op>, c: nat): nat {
    if ops == [] then 0
    else
      var before := CountIn(ops[..|ops| - 1], c);
      var op := ops[|ops| - 1];
      if !Uses(op.path, c) then before
      else match op
        case Apply(_) => before + 1
        case Reset(_) => if before == 0 then 0 else before - 1
        case ForceReset(_) => 0
  }

  /** The value that the calls left: that of the last path applied, until the last use ends. */
  ghost function ValueAfter(ops: seq<Op>, c: nat, reset: Value): Value {
    if ops == [] then reset
    else
      var before, op := ops[..|ops| - 1], ops[|ops| - 1];
      if !Uses(op.path, c) then ValueAfter(before, c, reset)
      else match op
        case Apply(path) => ValueIn(path, c)
        case Reset(_) => if CountIn(before, c) <= 1 then reset else ValueAfter(before, c, reset)
        case ForceReset(_) => reset
  }

  /** After any calls, a control has the value and the count that its history alone gives it. */
  lemma {:induction false} RunFollowsHistory(ops: seq<Op>, st: State, c: nat)
    requires Settled(st) && AllFitting(ops, |st.device|, c) && st.activeCount == 0 && st.kind != Unsupported
    ensures RunOne(ops, st, c).activeCount == CountIn(ops, c)
    ensures RunOne(ops, st, c).oldValue == ValueAfter(ops, c, st.resetValue)
    decreases |ops|
  {
    if ops != [] {
      RunFollowsHistory(ops[..|ops| - 1], st, c);
      if Uses(ops[|ops| - 1].path, c) {
        StepFollowsHistory(ops[|ops| - 1], RunOne(ops[..|ops| - 1], st, c), c);
      }
    }
  }

  lemma StepFollowsHistory(op: Op, st: State, c: nat)
    requires Settled(st) && Fitting(op, |st.device|, c) && st.kind != Unsupported && Uses(op.path, c)
    ensures op.Apply? ==> CallOne(op, st, c).activeCount == st.activeCount + 1 && CallOne(op, st, c).oldValue == ValueIn(op.path, c)
    ensures op.ForceReset? ==> CallOne(op, st, c).activeCount == 0 && CallOne(op, st, c).oldValue == st.resetValue
    ensures op.Reset? ==> CallOne(op, st, c).activeCount == (if st.activeCount == 0 then 0 else st.activeCount - 1)
    ensures op.Reset? ==> CallOne(op, st, c).oldValue == if st.activeCount <= 1 then st.resetValue else st.oldValue
  {
  }

  /**
   Resetting a path leaves a control alone just if another use is counted, or it has the reset
   value anyway; the driver keeps its value under the same condition on what it is sent.
   */
  lemma ResetKeepsIff(path: seq<Setting>, st: State, c: nat)
    requires Settled(st) && Fitting(Reset(path), |st.device|, c) && st.kind != Unsupported && Uses(path, c)
    ensures CallOne(Reset(path), st, c).oldValue == st.oldValue <==> st.activeCount > 1 || st.oldValue == st.resetValue
    ensures st.kind == Array ==>
      (CallOne(Reset(path), st, c).device == st.device <==> st.activeCount > 1 || st.oldValue == st.resetValue)
    ensures st.kind == Enumerated ==>
      (CallOne(Reset(path), st, c).device == st.device <==> st.activeCount > 1 || st.oldValue[0] == st.resetValue[0])
  {
  }

  /** So after any calls, what a reset does to a control can be told from the history alone. */
  lemma ResetKeepsInRunIff(ops: seq<Op>, path: seq<Setting>, st: State, c: nat)
    requires Settled(st) && AllFitting(ops + [Reset(path)], |st.device|, c)
    requires st.activeCount == 0 && st.kind != Unsupported && Uses(path, c)
    ensures AllFitting(ops, |st.device|, c)
    ensures RunOne(ops + [Reset(path)], st, c).oldValue == RunOne(ops, st, c).oldValue
      <==> CountIn(ops, c) > 1 || ValueAfter(ops, c, st.resetValue) == st.resetValue
  {
    hide Uses, Settled, CallOne, UpdateOne;
    var all := ops + [Reset(path)];
    assert all[..|all| - 1] == ops;
    assert AllFitting(ops, |st.device|, c) by {
      assert forall k: nat :: k < |ops| ==> all[k] == ops[k];
    }
    RunFollowsHistory(ops, st, c);
    RunFollowsHistory(all, st, c);
  }

  // ---- balanced runs

  /** The paths in use, when each path is reset only after it was applied. */
  function Active(ops: seq<Op>): seq<seq<Setting>>
  {
    if ops == [] then []
    else
      var before, op := Active(ops[..|ops| - 1]), ops[|ops| - 1];
      match op
      case Apply(path) => before + [path]
      case Reset(path) => Without(before, path)
      case ForceReset(_) => before
  }

  function Without(paths: seq<seq<Setting>>, path: seq<Setting>): seq<seq<Setting>> {
    if paths == [] then []
    else if paths[0] == path then paths[1..]
    else [paths[0]] + Without(paths[1..], path)
  }

  predicate Balanced(ops: seq<Op>) {
    ops == []
    || (&& Balanced(ops[..|ops| - 1]) && !ops[|ops| - 1].ForceReset?
        && (ops[|ops| - 1].Reset? ==> ops[|ops| - 1].path in Active(ops[..|ops| - 1])))
  }

  function Users(paths: seq<seq<Setting>>, c: nat): nat {
    if paths == [] then 0 else (if Uses(paths[0], c) then 1 else 0) + Users(paths[1..], c)
  }

  lemma {:induction false} UsersAppend(paths: seq<seq<Setting>>, path: seq<Setting>, c: nat)
    ensures Users(paths + [path], c) == Users(paths, c) + (if Uses(path, c) then 1 else 0)
  {
    hide Uses;
    if paths == [] {
      assert [] + [path] == [path] && [path][1..] == [];
    } else {
      UsersAppend(paths[1..], path, c);
      assert (paths + [path])[1..] == paths[1..] + [path];
    }
  }

  lemma {:induction false} UsersWithout(paths: seq<seq<Setting>>, path: seq<Setting>, c: nat)
    requires path in paths
    ensures Users(Without(paths, path), c) == Users(paths, c) - (if Uses(path, c) then 1 else 0)
  {
    hide Uses;
    if paths[0] != path {
      UsersWithout(paths[1..], path, c);
      assert ([paths[0]] + Without(paths[1..], path))[1..] == Without(paths[1..], path);
    }
  }

  lemma {:induction false} SomeUser(paths: seq<seq<Setting>>, q: seq<Setting>, c: nat)
    requires q in paths && Uses(q, c)
    ensures Users(paths, c) > 0
  {
    hide Uses;
    if paths[0] != q {
      SomeUser(paths[1..], q, c);
    }
  }

  /** In a balanced run a control is counted once for each path in use that has it. */
  lemma {:induction false} BalancedCounts(ops: seq<Op>, c: nat)
    requires Balanced(ops)
    ensures CountIn(ops, c) == Users(Active(ops), c)
    decreases |ops|
  {
    hide Uses;
    if ops != [] {
      var before, op := ops[..|ops| - 1], ops[|ops| - 1];
      BalancedCounts(before, c);
      match op
      case Apply(path) => UsersAppend(Active(before), path, c);
      case Reset(path) => UsersWithout(Active(before), path, c);
    }
  }

  /** In a balanced run, resetting a path changes no control that a path still in use has, and restores all others. */
  lemma ResetSparesOthers(ops: seq<Op>, path: seq<Setting>, st: State, c: nat)
    requires Balanced(ops + [Reset(path)]) && Settled(st) && AllFitting(ops + [Reset(path)], |st.device|, c)
    requires st.activeCount == 0 && st.kind != Unsupported
    ensures AllFitting(ops, |st.device|, c)
    ensures (exists q :: q in Active(ops + [Reset(path)]) && Uses(q, c)) ==>
              RunOne(ops + [Reset(path)], st, c).device == RunOne(ops, st, c).device
    ensures Users(Active(ops + [Reset(path)]), c) == 0 ==>
              RunOne(ops + [Reset(path)], st, c).oldValue == st.resetValue
  {
    hide Uses, Settled, CallOne, UpdateOne;
    var all := ops + [Reset(path)];
    assert all[..|all| - 1] == ops;
    assert AllFitting(ops, |st.device|, c) by {
      assert forall k: nat :: k < |ops| ==> all[k] == ops[k];
    }
    BalancedCounts(all, c);
    RunFollowsHistory(all, st, c);
    if q :| q in Active(all) && Uses(q, c) {
      SomeUser(Active(all), q, c);
      RunFollowsHistory(ops, st, c);
      SharedStays(path, RunOne(ops, st, c), c);
    } else {
      UnusedIsReset(all, st, c);
    }
  }

  lemma SharedStays(path: seq<Setting>, st: State, c: nat)
    requires Settled(st) && Fitting(Reset(path), |st.device|, c)
    requires CallOne(Reset(path), st, c).activeCount > 0
    ensures CallOne(Reset(path), st, c).device == st.device
  {
  }

  lemma UnusedIsReset(ops: seq<Op>, st: State, c: nat)
    requires Settled(st) && AllFitting(ops, |st.device|, c) && st.kind != Unsupported
    ensures RunOne(ops, st, c).activeCount == 0 ==> RunOne(ops, st, c).oldValue == st.resetValue
  {
    hide CallOne;
  }

  /** Out of balance: resetting a path that was never applied ends the use of another path. */
  lemma UnappliedResetTakes(p: seq<Setting>, q: seq<Setting>, st: State, c: nat)
    requires Settled(st) && st.activeCount == 0 && st.kind != Unsupported
    requires p != q && Uses(p, c) && Uses(q, c) && AllFitting([Apply(q), Reset(p)], |st.device|, c)
    ensures q in Active([Apply(q), Reset(p)])
    ensures RunOne([Apply(q), Reset(p)], st, c).oldValue == st.resetValue
  {
    hide Uses;
    var ops := [Apply(q), Reset(p)];
    assert ops[..|ops| - 1] == [Apply(q)] && [Apply(q)][..|[Apply(q)]| - 1] == [];
    assert CountIn([Apply(q)], c) == 1;
    RunFollowsHistory(ops, st, c);
    assert ValueAfter(ops, c, st.resetValue) == st.resetValue;
    assert Active([Apply(q)]) == [q];
  }

  // ---- the code

  /** Every control is as CallOne says. */
  ghost predicate Called(op: Op, before: seq<State>, after: seq<State>) {
    && AllSized(before) && PathOk(before, op.path) && |after| == |before|
    && forall c: nat :: c < |before| ==>
         (Uses(op.path, c) ==> |ValueIn(op.path, c)| == |before[c].device|) && after[c] == CallOne(op, before[c], c)
  }

  /** The value that a path, or a reset, makes control st send next. */
  function Load(st: State, path: seq<Setting>, i: nat, reset: bool): State
    requires i < |path|
  {
    if st.kind == Unsupported then st else st.(newValue := if reset then st.resetValue else path[i].value)
  }

  /** The controls of the first k settings are loaded, and no others. */
  ghost predicate Loaded(before: seq<State>, after: seq<State>, path: seq<Setting>, k: nat, reset: bool)
    requires k <= |path|
  {
    && |after| == |before| && PathOk(before, path)
    && (forall i: nat :: i < k ==> after[path[i].ctl] == Load(before[path[i].ctl], path, i, reset))
    && forall c: nat :: c < |before| && !Uses(path[..k], c) ==> after[c] == before[c]
  }

  lemma LoadedStep(before: seq<State>, after: seq<State>, path: seq<Setting>, k: nat, reset: bool)
    requires k < |path| && Loaded(before, after, path, k, reset)
    ensures after[path[k].ctl] == before[path[k].ctl]
    ensures Loaded(before, after[path[k].ctl := Load(before[path[k].ctl], path, k, reset)], path, k + 1, reset)
  {
    hide Load;
    var next, x := after[path[k].ctl := Load(before[path[k].ctl], path, k, reset)], path[k].ctl;
    assert !Uses(path[..k], x);
    forall c: nat | c < |before| && !Uses(path[..k + 1], c)
      ensures next[c] == before[c]
    {
      assert path[..k + 1][k].ctl == x;
      UsesLonger(path, k, c);
    }
  }

  lemma UsesLonger(path: seq<Setting>, k: nat, c: nat)
    requires k < |path|
    ensures Uses(path[..k], c) ==> Uses(path[..k + 1], c)
  {
    if i: nat :| i < k && path[..k][i].ctl == c {
      assert path[..k + 1][i].ctl == c;
    }
  }

  lemma LoadedSized(before: seq<State>, after: seq<State>, path: seq<Setting>, reset: bool)
    requires Loaded(before, after, path, |path|, reset) && AllSized(before)
    ensures |after| == |before| && AllSized(after) && PathOk(after, path) && PathOk(before, path)
    ensures forall c: nat :: c < |before| ==> after[c].kind == before[c].kind
  {
    assert path[..|path|] == path;
    forall c: nat | c < |before|
      ensures Sized(after[c]) && |after[c].device| == |before[c].device| && after[c].kind == before[c].kind
    {
      if i: nat :| i < |path| && path[i].ctl == c {
        assert after[path[i].ctl] == Load(before[path[i].ctl], path, i, reset);
      } else {
        assert !Uses(path, c);
      }
    }
  }

  function DirectionOf(op: Op): Direction {
    match op case Apply(_) => Forward case Reset(_) => Reverse case ForceReset(_) => ReverseReset
  }

  /** Loading a path and then updating it does to each control what CallOne says. */
  lemma LoadedThenUpdated(op: Op, before: seq<State>, mid: seq<State>, sends: seq<nat>)
    requires AllSized(before) && Loaded(before, mid, op.path, |op.path|, !op.Apply?)
    ensures AllSized(mid) && Ctls(mid, InOrder(op.path, DirectionOf(op)))
    ensures Called(op, before, UpdateList(Mixer(mid, sends), InOrder(op.path, DirectionOf(op)), DirectionOf(op)).states)
    ensures UpdateList(Mixer(mid, sends), InOrder(op.path, DirectionOf(op)), DirectionOf(op)).sends
         == sends + Changing(mid, InOrder(op.path, DirectionOf(op)), DirectionOf(op))
  {
    hide UpdateList, UpdateOne, InOrder, Loaded, PathOk, Changing, Uses;
    LoadedSized(before, mid, op.path, !op.Apply?);
    InOrderOk(mid, op.path, DirectionOf(op));
    UpdateListIs(Mixer(mid, sends), InOrder(op.path, DirectionOf(op)), DirectionOf(op));
    forall c: nat | c < |before|
      ensures Uses(op.path, c) ==> |ValueIn(op.path, c)| == |before[c].device|
      ensures UpdateList(Mixer(mid, sends), InOrder(op.path, DirectionOf(op)), DirectionOf(op)).states[c] == CallOne(op, before[c], c)
    {
      LoadedOne(op, before, mid, c);
    }
  }

  lemma LoadedOne(op: Op, before: seq<State>, mid: seq<State>, c: nat)
    requires AllSized(before) && Loaded(before, mid, op.path, |op.path|, !op.Apply?) && c < |before|
    ensures Uses(op.path, c) ==> |ValueIn(op.path, c)| == |before[c].device|
    ensures !Uses(op.path, c) ==> mid[c] == before[c]
    ensures Uses(op.path, c) && before[c].kind == Unsupported ==> mid[c] == before[c]
    ensures Uses(op.path, c) && before[c].kind != Unsupported ==>
              mid[c] == before[c].(newValue := if op.Apply? then ValueIn(op.path, c) else before[c].resetValue)
  {
    assert op.path[..|op.path|] == op.path;
    if Uses(op.path, c) {
      var i: nat :| i < |op.path| && op.path[i] == Setting(c, ValueIn(op.path, c));
      assert mid[op.path[i].ctl] == Load(before[op.path[i].ctl], op.path, i, !op.Apply?);
    }
  }

  // ---- what is sent, and in which order

  /** Of two controls of the path that were both sent, the first one was sent before the other, or behind it for a reset. */
  ghost predicate InPathOrder(path: seq<Setting>, sent: seq<nat>, forward: bool) {
    forall i: nat, j: nat, a: nat, b: nat ::
      i < j < |path| && a < |sent| && b < |sent| && sent[a] == path[i].ctl && sent[b] == path[j].ctl ==>
        if forward then a < b else b < a
  }

  /** What a call sent: each control whose value changed, once, in the order of the path or against it. */
  ghost predicate SentChanges(op: Op, before: seq<State>, after: seq<State>, sent: seq<nat>) {
    && |after| == |before| && Distinct(sent) && InPathOrder(op.path, sent, op.Apply?)
    && forall c: nat :: c in sent <==> c < |before| && after[c].oldValue != before[c].oldValue
  }

  /** Position p of the list is where control a of those that change comes from. */
  lemma {:induction false} ChangingFrom(states: seq<State>, ctls: seq<nat>, dir: Direction, a: nat) returns (p: nat)
    requires Ctls(states, ctls) && a < |Changing(states, ctls, dir)|
    ensures p < |ctls| && ctls[p] == Changing(states, ctls, dir)[a]
    ensures states[ctls[p]].kind != Unsupported && Sends(dir, states[ctls[p]])
    ensures a == |Changing(states, ctls[..p], dir)|
    decreases |ctls|
  {
    hide Sends;
    var n := |ctls| - 1;
    var before := Changing(states, ctls[..n], dir);
    if a < |before| {
      p := ChangingFrom(states, ctls[..n], dir, a);
      assert ctls[..n][..p] == ctls[..p];
    } else {
      p := n;
    }
  }

  lemma {:induction false} ChangingGrows(states: seq<State>, ctls: seq<nat>, dir: Direction, p: nat, q: nat)
    requires Ctls(states, ctls) && p <= q <= |ctls|
    ensures |Changing(states, ctls[..p], dir)| <= |Changing(states, ctls[..q], dir)|
    decreases q
  {
    hide Sends;
    if p < q {
      ChangingGrows(states, ctls, dir, p, q - 1);
      assert ctls[..q][..q - 1] == ctls[..q - 1];
    }
  }

  lemma {:induction false} ChangingHas(states: seq<State>, ctls: seq<nat>, dir: Direction, c: nat)
    requires Ctls(states, ctls)
    ensures c in Changing(states, ctls, dir) <==> c in ctls && states[c].kind != Unsupported && Sends(dir, states[c])
    decreases |ctls|
  {
    hide Sends;
    if ctls != [] {
      var n := |ctls| - 1;
      ChangingHas(states, ctls[..n], dir, c);
      assert ctls == ctls[..n] + [ctls[n]];
    }
  }

  /** Changing controls are sent in the order of the list, each once. */
  lemma ChangingOrdered(states: seq<State>, ctls: seq<nat>, dir: Direction, a: nat, b: nat, p: nat, q: nat)
    requires Ctls(states, ctls) && Distinct(ctls) && p < q < |ctls|
    requires a < |Changing(states, ctls, dir)| && b < |Changing(states, ctls, dir)|
    requires Changing(states, ctls, dir)[a] == ctls[p] && Changing(states, ctls, dir)[b] == ctls[q]
    ensures a < b
  {
    hide Changing, Sends;
    var p' := ChangingFrom(states, ctls, dir, a);
    var q' := ChangingFrom(states, ctls, dir, b);
    assert p' == p && q' == q;
    ChangingStep(states, ctls, dir, p);
    ChangingGrows(states, ctls, dir, p + 1, q);
  }

  lemma ChangingStep(states: seq<State>, ctls: seq<nat>, dir: Direction, p: nat)
    requires Ctls(states, ctls) && p < |ctls| && states[ctls[p]].kind != Unsupported && Sends(dir, states[ctls[p]])
    ensures |Changing(states, ctls[..p + 1], dir)| == |Changing(states, ctls[..p], dir)| + 1
  {
    hide Sends;
    assert ctls[..p + 1][..p] == ctls[..p];
  }

  lemma ChangingOnce(states: seq<State>, ctls: seq<nat>, dir: Direction)
    requires Ctls(states, ctls) && Distinct(ctls)
    ensures Distinct(Changing(states, ctls, dir))
  {
    hide Changing, Sends;
    var sent := Changing(states, ctls, dir);
    forall a: nat, b: nat | a < b < |sent|
      ensures sent[a] != sent[b]
    {
      var p := ChangingFrom(states, ctls, dir, a);
      var q := ChangingFrom(states, ctls, dir, b);
    }
  }

  /** Control i of the path stands at that place of the list, counted from the other end for a reset. */
  lemma PlaceInOrder(path: seq<Setting>, dir: Direction, i: nat)
    requires i < |path|
    ensures |InOrder(path, dir)| == |path|
    ensures InOrder(path, dir)[if dir == Forward then i else |path| - 1 - i] == path[i].ctl
  {
  }

  lemma SentInPathOrder(states: seq<State>, path: seq<Setting>, dir: Direction)
    requires PathOk(states, path) && Ctls(states, InOrder(path, dir))
    ensures InPathOrder(path, Changing(states, InOrder(path, dir), dir), dir == Forward)
  {
    hide Changing, Sends, InOrder, PathOk;
    InOrderOk(states, path, dir);
    var ctls := InOrder(path, dir);
    var sent := Changing(states, ctls, dir);
    forall i: nat, j: nat, a: nat, b: nat
      | i < j < |path| && a < |sent| && b < |sent| && sent[a] == path[i].ctl && sent[b] == path[j].ctl
      ensures if dir == Forward then a < b else b < a
    {
      PlaceInOrder(path, dir, i);
      PlaceInOrder(path, dir, j);
      if dir == Forward {
        ChangingOrdered(states, ctls, dir, a, b, i, j);
      } else {
        ChangingOrdered(states, ctls, dir, b, a, |path| - 1 - j, |path| - 1 - i);
      }
    }
  }

  /** A control is sent exactly if the value that was last sent changes. */
  lemma SentIfChanged(op: Op, before: seq<State>, mid: seq<State>, after: seq<State>, c: nat)
    requires AllSized(before) && LoadedFrom(op, before, mid) && Called(op, before, after) && c < |before|
    ensures after[c].oldValue != before[c].oldValue
      <==> Uses(op.path, c) && mid[c].kind != Unsupported && Sends(DirectionOf(op), mid[c])
  {
    hide Loaded, PathOk, Uses;
    LoadedOne(op, before, mid, c);
  }

  lemma SendsAreChanges(op: Op, before: seq<State>, mid: seq<State>, after: seq<State>)
    requires AllSized(before) && LoadedFrom(op, before, mid) && Called(op, before, after)
    requires Ctls(mid, InOrder(op.path, DirectionOf(op)))
    ensures SentChanges(op, before, after, Changing(mid, InOrder(op.path, DirectionOf(op)), DirectionOf(op)))
  {
    hide Loaded, PathOk, Uses, Changing, InOrder, InPathOrder, Sends, CallOne;
    LoadedSized(before, mid, op.path, !op.Apply?);
    var ctls, dir := InOrder(op.path, DirectionOf(op)), DirectionOf(op);
    InOrderOk(mid, op.path, dir);
    SentInPathOrder(mid, op.path, dir);
    ChangingOnce(mid, ctls, dir);
    forall c: nat
      ensures c in Changing(mid, ctls, dir) <==> c < |before| && after[c].oldValue != before[c].oldValue
    {
      if c < |mid| {
        ChangingHas(mid, ctls, dir, c);
        SentIfChanged(op, before, mid, after, c);
      } else {
        if c in Changing(mid, ctls, dir) {
          ChangingHas(mid, ctls, dir, c);
        }
      }
    }
  }

  predicate AllSettled(states: seq<State>) {
    forall c: nat :: c < |states| ==> Settled(states[c])
  }

  /** No call changes how many values a control has, and between calls all controls stay settled. */
  lemma CalledKeeps(op: Op, before: seq<State>, after: seq<State>)
    requires Called(op, before, after)
    ensures AllSized(after) && forall path :: PathOk(before, path) ==> PathOk(after, path)
    ensures AllSettled(before) ==> AllSettled(after)
  {
    hide Settled, UpdateOne, PathOk, Uses;
    forall c: nat | c < |before|
      ensures Sized(after[c]) && |after[c].device| == |before[c].device| && (Settled(before[c]) ==> Settled(after[c]))
    {
      CalledOne(op, before, c);
    }
    forall path | PathOk(before, path)
      ensures PathOk(after, path)
    {
      SamePathOk(before, after, path);
    }
  }

  lemma CalledOne(op: Op, before: seq<State>, c: nat)
    requires AllSized(before) && PathOk(before, op.path) && c < |before|
    requires Uses(op.path, c) ==> |ValueIn(op.path, c)| == |before[c].device|
    ensures Sized(CallOne(op, before[c], c)) && |CallOne(op, before[c], c).device| == |before[c].device|
    ensures Settled(before[c]) ==> Settled(CallOne(op, before[c], c))
  {
    if Settled(before[c]) {
      CallSettles(op, before[c], c);
    }
  }

  lemma SamePathOk(before: seq<State>, after: seq<State>, path: seq<Setting>)
    requires PathOk(before, path) && |after| == |before|
    requires forall c: nat :: c < |before| ==> |after[c].device| == |before[c].device|
    ensures PathOk(after, path)
  {
  }

  class AudioRoute {
    const paths: map<string, seq<Setting>>
    var mixerState: seq<State>
    /** The controls that were sent to the driver, in order. */
    var sends: seq<nat>

    ghost predicate Valid()
      reads this
    {
      && AllSized(mixerState)
      && forall name :: name in paths ==> PathOk(mixerState, paths[name])
    }

    /** The controls as they were read from the driver, with the values that the configuration gives them. */
    constructor (states: seq<State>, paths: map<string, seq<Setting>>)
      requires AllSized(states) && forall name :: name in paths ==> PathOk(states, paths[name])
      ensures Valid() && mixerState == states && this.paths == paths && sends == []
    {
      mixerState := states;
      this.paths := paths;
      sends := [];
    }

    /** audio_route_update_mixer */
    method UpdateMixer()
      requires AllSized(mixerState)
      modifies this
      ensures |mixerState| == |old(mixerState)|
      ensures forall c: nat :: c < |mixerState| ==>
                mixerState[c] == if old(mixerState)[c].kind == Unsupported then old(mixerState)[c] else SetIfChanged(old(mixerState)[c])
      ensures old(sends) <= sends && forall c: nat :: c in sends[|old(sends)|..] <==>
                c < |old(mixerState)| && old(mixerState)[c].kind != Unsupported
                && old(mixerState)[c].oldValue != old(mixerState)[c].newValue
    {
      hide SetIfChanged;
      ghost var sent := [];
      var i := 0;
      while i < |mixerState|
        invariant 0 <= i <= |mixerState| == |old(mixerState)|
        invariant forall c: nat :: i <= c < |mixerState| ==> mixerState[c] == old(mixerState)[c]
        invariant forall c: nat :: c < i ==>
                    mixerState[c] == if old(mixerState)[c].kind == Unsupported then old(mixerState)[c] else SetIfChanged(old(mixerState)[c])
        invariant sends == old(sends) + sent
        invariant forall c: nat :: c in sent <==>
                    c < i && old(mixerState)[c].kind != Unsupported && old(mixerState)[c].oldValue != old(mixerState)[c].newValue
      {
        if mixerState[i].kind != Unsupported {
          SetValueIfChanged(i);
          sent := sent + if old(mixerState)[i].oldValue != old(mixerState)[i].newValue then [i] else [];
        }
        i := i + 1;
      }
      assert sends[|old(sends)|..] == sent;
    }

    /** save_mixer_state */
    method SaveState()
      modifies this`mixerState
      ensures |mixerState| == |old(mixerState)|
      ensures forall c: nat :: c < |mixerState| ==>
                mixerState[c] == if old(mixerState)[c].kind == Unsupported then old(mixerState)[c]
                                 else old(mixerState)[c].(resetValue := old(mixerState)[c].newValue)
    {
      var i := 0;
      while i < |mixerState|
        invariant 0 <= i <= |mixerState| == |old(mixerState)|
        invariant forall c: nat :: i <= c < |mixerState| ==> mixerState[c] == old(mixerState)[c]
        invariant forall c: nat :: c < i ==>
                    mixerState[c] == if old(mixerState)[c].kind == Unsupported then old(mixerState)[c]
                                     else old(mixerState)[c].(resetValue := old(mixerState)[c].newValue)
      {
        if mixerState[i].kind != Unsupported {
          mixerState := mixerState[i := mixerState[i].(resetValue := mixerState[i].newValue)];
        }
        i := i + 1;
      }
    }

    /** The end of audio_route_init: from here on all controls are settled. */
    method Start()
      requires Valid() && forall c: nat :: c < |mixerState| ==> mixerState[c].activeCount == 0 && DeviceKnows(mixerState[c])
      modifies this
      ensures Valid() && AllSettled(mixerState) && |mixerState| == |old(mixerState)|
      ensures forall c: nat :: c < |mixerState| && mixerState[c].kind != Unsupported ==>
                mixerState[c].oldValue == old(mixerState)[c].newValue && mixerState[c].activeCount == 0
    {
      hide PathOk;
      ghost var before := mixerState;
      UpdateMixer();
      SaveState();
      forall name | name in paths
        ensures PathOk(mixerState, paths[name])
      {
        SamePathOk(before, mixerState, paths[name]);
      }
    }

    /** mixer_set_value_if_changed: the first difference sends all the values. */
    method SetValueIfChanged(c: nat)
      requires c < |mixerState| && Sized(mixerState[c])
      modifies this
      ensures mixerState == old(mixerState)[c := SetIfChanged(old(mixerState[c]))]
      ensures sends == old(sends) + if old(mixerState[c].oldValue) != old(mixerState[c].newValue) then [c] else []
    {
      var st := mixerState[c];
      var i := 0;
      while i < |st.oldValue|
        invariant 0 <= i <= |st.oldValue|
        invariant st.oldValue[..i] == st.newValue[..i]
        invariant mixerState == old(mixerState) && sends == old(sends)
      {
        if st.oldValue[i] != st.newValue[i] {
          mixerState := mixerState[c := st.(device := Sent(st), oldValue := st.newValue)];
          sends := sends + [c];
          return;
        }
        i := i + 1;
      }
      assert st.oldValue[..i] == st.oldValue && st.newValue[..i] == st.newValue;
    }

    method UpdateControl(c: nat, dir: Direction)
      requires c < |mixerState| && AllSized(mixerState)
      modifies this
      ensures Mixer(mixerState, sends) == UpdateCtl(Mixer(old(mixerState), old(sends)), c, dir)
    {
      var st := mixerState[c];
      if st.kind == Unsupported {
        return;
      }
      if dir != Forward && st.activeCount > 0 {
        if dir == ReverseReset {
          mixerState := mixerState[c := st.(activeCount := 0)];
        } else {
          mixerState := mixerState[c := st.(activeCount := st.activeCount - 1)];
          if st.activeCount - 1 > 0 {
            mixerState := mixerState[c := st.(activeCount := st.activeCount - 1, newValue := st.oldValue)];
            return;
          }
        }
      } else if dir == Forward {
        mixerState := mixerState[c := st.(activeCount := st.activeCount + 1)];
      }
      SetValueIfChanged(c);
    }

    /** audio_route_update_path, in the order of the path or against it. */
    method UpdatePath(path: seq<Setting>, dir: Direction)
      requires AllSized(mixerState) && PathOk(mixerState, path) && Ctls(mixerState, InOrder(path, dir))
      modifies this
      ensures Mixer(mixerState, sends) == UpdateList(Mixer(old(mixerState), old(sends)), InOrder(path, dir), dir)
      ensures old(sends) <= sends && InPathOrder(path, sends[|old(sends)|..], dir == Forward)
    {
      hide UpdateCtl, PathOk, InPathOrder;
      ghost var m, ctls := Mixer(mixerState, sends), InOrder(path, dir);
      var i := 0;
      while i < |path|
        invariant 0 <= i <= |path|
        invariant |mixerState| == |m.states| && AllSized(mixerState)
        invariant Mixer(mixerState, sends) == UpdateList(m, ctls[..i], dir)
      {
        assert ctls[..i + 1][..i] == ctls[..i];
        UpdateSized(Mixer(mixerState, sends), ctls[i], dir);
        UpdateControl(path[if dir != Forward then |path| - 1 - i else i].ctl, dir);
        i := i + 1;
      }
      assert ctls[..|path|] == ctls;
      InOrderOk(m.states, path, dir);
      UpdateListIs(m, ctls, dir);
      SentInPathOrder(m.states, path, dir);
    }

    /** path_apply and path_reset: what is to be sent next. */
    method LoadPath(path: seq<Setting>, reset: bool)
      requires AllSized(mixerState) && PathOk(mixerState, path)
      modifies this`mixerState
      ensures Loaded(old(mixerState), mixerState, path, |path|, reset)
    {
      hide Loaded;
      ghost var before := mixerState;
      var i := 0;
      NothingLoaded(mixerState, path, reset);
      while i < |path|
        invariant 0 <= i <= |path| && |mixerState| == |before|
        invariant Loaded(before, mixerState, path, i, reset)
      {
        LoadedStep(before, mixerState, path, i, reset);
        var c := path[i].ctl;
        if mixerState[c].kind != Unsupported {
          mixerState := mixerState[c := mixerState[c].(newValue := if reset then mixerState[c].resetValue else path[i].value)];
        } else {
          assert mixerState[c := mixerState[c]] == mixerState;
        }
        i := i + 1;
      }
    }

    /** The combined calls: 0, or -1 for a path that does not exist. */
    method LoadAndUpdate(name: string, dir: Direction) returns (rc: int)
      requires Valid()
      modifies this
      ensures Valid() && rc == (if name in paths then 0 else -1)
      ensures name !in paths ==> mixerState == old(mixerState) && sends == old(sends)
      ensures name in paths ==> Called(CallOf(dir, paths[name]), old(mixerState), mixerState)
      ensures name in paths ==> old(sends) <= sends && SentChanges(CallOf(dir, paths[name]), old(mixerState), mixerState, sends[|old(sends)|..])
    {
      hide AllSized, PathOk, UpdateList, Changing, InOrder, Called, Loaded, SentChanges;
      if name !in paths {
        return -1;
      }
      var path := paths[name];
      ghost var before := mixerState;
      LoadPath(path, dir != Forward);
      LoadedThenUpdated(CallOf(dir, path), before, mixerState, sends);
      LoadedSized(before, mixerState, path, dir != Forward);
      ghost var mid := mixerState;
      assert LoadedFrom(CallOf(dir, path), before, mid);
      UpdatePath(path, dir);
      SendsAreChanges(CallOf(dir, path), before, mid, mixerState);
      CalledKeeps(CallOf(dir, path), before, mixerState);
      return 0;
    }

    method ApplyAndUpdatePath(name: string) returns (rc: int)
      requires Valid()
      modifies this
      ensures Valid() && rc == (if name in paths then 0 else -1)
      ensures name !in paths ==> mixerState == old(mixerState) && sends == old(sends)
      ensures name in paths ==> Called(Apply(paths[name]), old(mixerState), mixerState)
      ensures name in paths ==> old(sends) <= sends && SentChanges(Apply(paths[name]), old(mixerState), mixerState, sends[|old(sends)|..])
    {
      rc := LoadAndUpdate(name, Forward);
    }

    method ResetAndUpdatePath(name: string) returns (rc: int)
      requires Valid()
      modifies this
      ensures Valid() && rc == (if name in paths then 0 else -1)
      ensures name !in paths ==> mixerState == old(mixerState) && sends == old(sends)
      ensures name in paths ==> Called(Reset(paths[name]), old(mixerState), mixerState)
      ensures name in paths ==> old(sends) <= sends && SentChanges(Reset(paths[name]), old(mixerState), mixerState, sends[|old(sends)|..])
    {
      rc := LoadAndUpdate(name, Reverse);
    }

    method ForceResetAndUpdatePath(name: string) returns (rc: int)
      requires Valid()
      modifies this
      ensures Valid() && rc == (if name in paths then 0 else -1)
      ensures name !in paths ==> mixerState == old(mixerState) && sends == old(sends)
      ensures name in paths ==> Called(ForceReset(paths[name]), old(mixerState), mixerState)
      ensures name in paths ==> old(sends) <= sends && SentChanges(ForceReset(paths[name]), old(mixerState), mixerState, sends[|old(sends)|..])
    {
      rc := LoadAndUpdate(name, ReverseReset);
    }
  }

  function CallOf(dir: Direction, path: seq<Setting>): Op {
    match dir case Forward => Apply(path) case Reverse => Reset(path) case ReverseReset => ForceReset(path)
  }

  ghost predicate LoadedFrom(op: Op, before: seq<State>, mid: seq<State>) {
    Loaded(before, mid, op.path, |op.path|, !op.Apply?)
  }

  lemma NothingLoaded(states: seq<State>, path: seq<Setting>, reset: bool)
    requires PathOk(states, path)
    ensures Loaded(states, states, path, 0, reset)
  {
  }
}
