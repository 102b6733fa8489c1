// Folding the command line: steps, bootstrap actions and instance groups move into the create command
// before them.
module CommandFold {
  // HBase installs are a step and a bootstrap action at once.
  datatype Command =
    | Create(id: nat)
    | Step(id: nat)
    | Bootstrap(id: nat)
    | HBaseInstall(id: nat)
    | AddGroup(id: nat)
    | CreateGroup(id: nat)
    | Other(id: nat)

  // What is executed: create commands and implicit add-steps commands with what was folded into them,
  // and commands as they were.
  datatype Action =
    | CreateJobFlow(id: nat, steps: seq<nat>, bootstraps: seq<nat>, groups: seq<nat>)
    | AddSteps(steps: seq<nat>)
    | Plain(command: Command)

  // The actions so far, and the index of the last create or add-steps command.
  datatype State = State(actions: seq<Action>, last: int) | Failed

  predicate IsStep(c: Command) {
    c.Step? || c.HBaseInstall?
  }

  predicate IsBootstrap(c: Command) {
    c.Bootstrap? || c.HBaseInstall?
  }

  predicate IsGroup(c: Command) {
    c.AddGroup? || c.CreateGroup?
  }

  ghost predicate Sound(s: State) {
    s.State? ==> -1 <= s.last < |s.actions| && (s.last >= 0 ==> !s.actions[s.last].Plain?)
  }

  function WithStep(a: Action, id: nat): Action {
    match a
    case CreateJobFlow(i, steps, bootstraps, groups) => CreateJobFlow(i, steps + [id], bootstraps, groups)
    case AddSteps(steps) => AddSteps(steps + [id])
    case Plain(_) => a
  }

  function Next(s: State, c: Command): (r: State)
    requires Sound(s)
    ensures Sound(r)
  {
    if s.Failed? then s
    else if c.Create? then State(s.actions + [CreateJobFlow(c.id, [], [], [])], |s.actions|)
    else if c.Other? then State(s.actions + [Plain(c)], s.last)
    else if s.last < 0 && !IsStep(c) then
      if c.AddGroup? then State(s.actions + [Plain(c)], s.last) else Failed
    else
      var actions, last := if s.last < 0 then s.actions + [AddSteps([])] else s.actions, if s.last < 0 then |s.actions| else s.last;
      var into := actions[last];
      if IsStep(c) then
        var after := actions[last := WithStep(into, c.id)];
        if !IsBootstrap(c) then State(after, last)
        else if into.CreateJobFlow? then State(after[last := after[last].(bootstraps := into.bootstraps + [c.id])], last)
        else Failed
      else if IsBootstrap(c) then
        if into.CreateJobFlow? then State(actions[last := into.(bootstraps := into.bootstraps + [c.id])], last) else Failed
      else if into.CreateJobFlow? then State(actions[last := into.(groups := into.groups + [c.id])], last)
      else State(actions + [Plain(c)], last)
  }

  function Fold(commands: seq<Command>): (s: State)
    ensures Sound(s)
  {
    if commands == [] then State([], -1) else Next(Fold(commands[..|commands| - 1]), commands[|commands| - 1])
  }

  // The program, with the commands that were created or folded into as the list it builds.
  method FoldCommands(commands: seq<Command>) returns (r: State)
    ensures r == Fold(commands)
  {
    var actions: seq<Action> := [];
    var lastCreate := -1;
    for n := 0 to |commands|
      invariant Sound(State(actions, lastCreate)) && Fold(commands[..n]) == State(actions, lastCreate)
    {
      assert commands[..n + 1][..n] == commands[..n];
      FailureStays(commands, n + 1);
      var cmd := commands[n];
      if cmd.Create? {
        lastCreate := |actions|;
        actions := actions + [CreateJobFlow(cmd.id, [], [], [])];
        continue;
      }
      if cmd.Other? {
        actions := actions + [Plain(cmd)];
        continue;
      }
      if lastCreate < 0 {
        if IsStep(cmd) {
          lastCreate := |actions|;
          actions := actions + [AddSteps([])];
        } else if cmd.AddGroup? {
          actions := actions + [Plain(cmd)];
          continue;
        } else {
          return Failed;
        }
      }
      if IsStep(cmd) {
        actions := actions[lastCreate := WithStep(actions[lastCreate], cmd.id)];
      }
      if IsBootstrap(cmd) {
        var into := actions[lastCreate];
        if !into.CreateJobFlow? {
          return Failed;
        }
        actions := actions[lastCreate := into.(bootstraps := into.bootstraps + [cmd.id])];
      }
      if IsGroup(cmd) {
        var into := actions[lastCreate];
        if into.CreateJobFlow? {
          actions := actions[lastCreate := into.(groups := into.groups + [cmd.id])];
        } else {
          actions := actions + [Plain(cmd)];
        }
      }
    }
    assert commands[..|commands|] == commands;
    r := State(actions, lastCreate);
  }

  lemma {:induction false} FailureStays(commands: seq<Command>, n: nat)
    requires n <= |commands|
    ensures Fold(commands[..n]).Failed? ==> Fold(commands).Failed?
    decreases |commands| - n
  {
    if n < |commands| {
      assert commands[..n + 1][..n] == commands[..n];
      FailureStays(commands, n + 1);
    } else {
      assert commands[..n] == commands;
    }
  }

  // ---------------------------------------------------------------- nothing is lost

  datatype Kind = Creates | Steps | Bootstraps | Groups | Others

  predicate Is(kind: Kind, c: Command) {
    match kind
    case Creates => c.Create?
    case Steps => IsStep(c)
    case Bootstraps => IsBootstrap(c)
    case Groups => IsGroup(c)
    case Others => c.Other?
  }

  // The commands of one kind on the command line.
  function Ids(kind: Kind, commands: seq<Command>): seq<nat> {
    if commands == [] then []
    else
      var c := commands[|commands| - 1];
      Ids(kind, commands[..|commands| - 1]) + if Is(kind, c) then [c.id] else []
  }

  // The commands of one kind that an action stands for.
  function In(kind: Kind, a: Action): seq<nat> {
    match a
    case CreateJobFlow(id, steps, bootstraps, groups) =>
      (match kind
       case Creates => [id]
       case Steps => steps
       case Bootstraps => bootstraps
       case Groups => groups
       case Others => [])
    case AddSteps(steps) => if kind.Steps? then steps else []
    case Plain(c) => if Is(kind, c) then [c.id] else []
  }

  function Folded(kind: Kind, actions: seq<Action>): seq<nat> {
    if actions == [] then [] else Folded(kind, actions[..|actions| - 1]) + In(kind, actions[|actions| - 1])
  }

  // What follows the last create or add-steps command stands for no step and no bootstrap action,
  // and after a create command for no instance group.
  ghost predicate NothingAfter(s: State) {
    s.State? ==> forall i :: 0 <= i < |s.actions| && i > s.last ==>
      s.actions[i].Plain? && !IsStep(s.actions[i].command) && !IsBootstrap(s.actions[i].command)
      && (s.last >= 0 && s.actions[s.last].CreateJobFlow? ==> !IsGroup(s.actions[i].command))
  }

  lemma {:induction false} FoldNothingAfter(commands: seq<Command>)
    ensures NothingAfter(Fold(commands))
    decreases |commands|
  {
    if commands != [] {
      FoldNothingAfter(commands[..|commands| - 1]);
    }
  }

  lemma Appended(kind: Kind, actions: seq<Action>, a: Action)
    ensures Folded(kind, actions + [a]) == Folded(kind, actions) + In(kind, a)
  {
    assert (actions + [a])[..|actions|] == actions;
  }

  lemma {:induction false} Updated(kind: Kind, actions: seq<Action>, last: nat, a: Action, added: seq<nat>)
    requires last < |actions| && In(kind, a) == In(kind, actions[last]) + added
    requires added != [] ==> forall i :: last < i < |actions| ==> In(kind, actions[i]) == []
    ensures Folded(kind, actions[last := a]) == Folded(kind, actions) + added
    decreases |actions|
  {
    hide In;
    var n := |actions| - 1;
    if last < n {
      Updated(kind, actions[..n], last, a, added);
      assert actions[last := a][..n] == actions[..n][last := a];
    } else {
      assert actions[last := a][..n] == actions[..n];
    }
  }

  lemma NextFolded(kind: Kind, s: State, c: Command)
    requires Sound(s) && NothingAfter(s) && s.State? && Next(s, c).State?
    ensures Folded(kind, Next(s, c).actions) == Folded(kind, s.actions) + if Is(kind, c) then [c.id] else []
  {
    hide Folded;
    var r := Next(s, c);
    if c.Create? || c.Other? || (s.last < 0 && !IsStep(c)) {
      Appended(kind, s.actions, r.actions[|s.actions|]);
    } else {
      var actions, last := if s.last < 0 then s.actions + [AddSteps([])] else s.actions, if s.last < 0 then |s.actions| else s.last;
      var added := if Is(kind, c) then [c.id] else [];
      Appended(kind, s.actions, AddSteps([]));
      assert Folded(kind, s.actions) + [] == Folded(kind, s.actions);
      assert In(kind, actions[last]) + [] == In(kind, actions[last]);
      if IsGroup(c) && !actions[last].CreateJobFlow? {
        Appended(kind, actions, Plain(c));
      } else {
        assert r.actions == actions[last := r.actions[last]];
        Updated(kind, actions, last, r.actions[last], added);
      }
    }
  }

  // Reading the commands of any kind out of the folded ones gives those of the command line, in its order.
  lemma {:induction false} FoldKeeps(kind: Kind, commands: seq<Command>)
    requires Fold(commands).State?
    ensures Folded(kind, Fold(commands).actions) == Ids(kind, commands)
    decreases |commands|
  {
    hide Next, Is;
    if commands != [] {
      var init := commands[..|commands| - 1];
      FailureStays(commands, |commands| - 1);
      FoldNothingAfter(init);
      FoldKeeps(kind, init);
      NextFolded(kind, Fold(init), commands[|commands| - 1]);
    }
  }

  function PlainOthers(commands: seq<Command>): seq<Action> {
    if commands == [] then []
    else
      var c := commands[|commands| - 1];
      PlainOthers(commands[..|commands| - 1]) + if c.Other? then [Plain(c)] else []
  }

  // A create command takes exactly what stands between it and the next one; folding does not fail there.
  lemma {:induction false} CreateTakes(before: seq<Command>, create: Command, after: seq<Command>)
    requires Fold(before).State? && create.Create? && forall n :: 0 <= n < |after| ==> !after[n].Create?
    ensures var actions := Fold(before).actions;
      Fold(before + [create] + after) == State(actions + Taken(create, after), |actions|)
    decreases |after|
  {
    hide Next, Ids, PlainOthers;
    var all, m := before + [create] + after, |after| - 1;
    if after == [] {
      assert all[..|before|] == before && all[|before|] == create;
      TakesNothing(Fold(before), create);
    } else {
      assert all[..|all| - 1] == before + [create] + after[..m] && all[|all| - 1] == after[m];
      CreateTakes(before, create, after[..m]);
      TakesNext(Fold(before).actions, create, after);
    }
  }

  function Taken(create: Command, after: seq<Command>): seq<Action> {
    [CreateJobFlow(create.id, Ids(Steps, after), Ids(Bootstraps, after), Ids(Groups, after))] + PlainOthers(after)
  }

  lemma TakesNothing(s: State, create: Command)
    requires Sound(s) && s.State? && create.Create?
    ensures Next(s, create) == State(s.actions + Taken(create, []), |s.actions|)
  {
    assert Taken(create, []) == [CreateJobFlow(create.id, [], [], [])];
  }

  lemma TakesNext(actions: seq<Action>, create: Command, after: seq<Command>)
    requires after != [] && !after[|after| - 1].Create?
    ensures var m := |after| - 1;
      Next(State(actions + Taken(create, after[..m]), |actions|), after[m]) == State(actions + Taken(create, after), |actions|)
  {
    var m, k := |after| - 1, |actions|;
    var c, old_, new_ := after[m], Taken(create, after[..m]), Taken(create, after);
    assert forall kind :: Is(kind, c) || Ids(kind, after) == Ids(kind, after[..m]) + [] == Ids(kind, after[..m]);
    if c.Other? {
      assert new_ == old_ + [Plain(c)];
      assert actions + old_ + [Plain(c)] == actions + (old_ + [Plain(c)]);
    } else {
      assert new_ == old_[0 := new_[0]];
      assert (actions + old_)[k] == old_[0] && (actions + old_)[k := new_[0]] == actions + new_;
    }
  }

  // ---------------------------------------------------------------- without a create command

  function PlainNonSteps(commands: seq<Command>): seq<Action> {
    if commands == [] then []
    else
      var c := commands[|commands| - 1];
      PlainNonSteps(commands[..|commands| - 1]) + if IsStep(c) then [] else [Plain(c)]
  }

  lemma {:induction false} NoStepFolds(commands: seq<Command>)
    requires Fold(commands).State? && forall i :: 0 <= i < |commands| ==> !commands[i].Create? && !IsStep(commands[i])
    ensures Fold(commands) == State(PlainNonSteps(commands), -1)
    decreases |commands|
  {
    if commands != [] {
      FailureStays(commands, |commands| - 1);
      NoStepFolds(commands[..|commands| - 1]);
    }
  }

  // Before any create command, all steps go into one add-steps command, which stands where the first of
  // them did; n is that place. The others stay as they are.
  lemma {:induction false} StepsFoldTogether(commands: seq<Command>, n: nat)
    requires Fold(commands).State? && (forall i :: 0 <= i < |commands| ==> !commands[i].Create?)
    requires n < |commands| && IsStep(commands[n]) && forall i :: 0 <= i < n ==> !IsStep(commands[i])
    ensures var first := PlainNonSteps(commands[..n]);
      Fold(commands) == State(first + [AddSteps(Ids(Steps, commands))] + PlainNonSteps(commands[n..]), |first|)
    decreases |commands|
  {
    hide Next;
    var m := |commands| - 1;
    FailureStays(commands, m);
    var first := PlainNonSteps(commands[..n]);
    if n == m {
      NoStepFolds(commands[..n]);
      FirstStepFolds(first, commands[n]);
      OnlyStep(commands, n);
      assert first + [AddSteps([commands[n].id])] + [] == first + [AddSteps([commands[n].id])];
    } else {
      StepsFoldTogether(commands[..m], n);
      assert commands[..m][..n] == commands[..n];
      assert commands[n..][..|commands[n..]| - 1] == commands[..m][n..];
      var steps, rest := Ids(Steps, commands[..m]), PlainNonSteps(commands[..m][n..]);
      NextStepFolds(first, steps, rest, commands[m]);
      assert rest + [] == rest && steps + [] == steps;
      assert commands[n..][|commands[n..]| - 1] == commands[m];
    }
  }

  lemma OnlyStep(commands: seq<Command>, n: nat)
    requires n + 1 == |commands| && IsStep(commands[n]) && forall i :: 0 <= i < n ==> !IsStep(commands[i])
    ensures PlainNonSteps(commands[n..]) == [] && Ids(Steps, commands) == [commands[n].id]
  {
    NoIds(commands[..n]);
    assert commands[n..] == [commands[n]] && [commands[n]][..0] == [];
    assert PlainNonSteps([]) == [];
  }

  lemma {:induction false} NoIds(commands: seq<Command>)
    requires forall i :: 0 <= i < |commands| ==> !IsStep(commands[i])
    ensures Ids(Steps, commands) == []
    decreases |commands|
  {
    if commands != [] {
      NoIds(commands[..|commands| - 1]);
    }
  }

  lemma FirstStepFolds(actions: seq<Action>, c: Command)
    requires IsStep(c) && Next(State(actions, -1), c).State?
    ensures Next(State(actions, -1), c) == State(actions + [AddSteps([c.id])], |actions|)
  {
    assert WithStep(AddSteps([]), c.id) == AddSteps([c.id]);
    assert (actions + [AddSteps([])])[|actions| := AddSteps([c.id])] == actions + [AddSteps([c.id])];
  }

  lemma NextStepFolds(first: seq<Action>, steps: seq<nat>, rest: seq<Action>, c: Command)
    requires !c.Create?
    requires var s := State(first + [AddSteps(steps)] + rest, |first|); Next(s, c).State?
    ensures Next(State(first + [AddSteps(steps)] + rest, |first|), c)
      == if IsStep(c) then State(first + [AddSteps(steps + [c.id])] + rest, |first|)
         else State(first + [AddSteps(steps)] + (rest + [Plain(c)]), |first|)
  {
    var actions := first + [AddSteps(steps)] + rest;
    assert actions[|first|] == AddSteps(steps);
    if IsStep(c) {
      assert actions[|first| := AddSteps(steps + [c.id])] == first + [AddSteps(steps + [c.id])] + rest;
    } else {
      assert actions + [Plain(c)] == first + [AddSteps(steps)] + (rest + [Plain(c)]);
    }
  }

  // ---------------------------------------------------------------- when folding fails

  predicate HasCreate(commands: seq<Command>) {
    exists n :: 0 <= n < |commands| && commands[n].Create?
  }

  predicate HasStep(commands: seq<Command>) {
    exists n :: 0 <= n < |commands| && IsStep(commands[n])
  }

  // A bootstrap action before any create command, or a new instance group before any create command or step.
  predicate TooEarly(before: seq<Command>, c: Command) {
    (IsBootstrap(c) && !HasCreate(before)) || (c.CreateGroup? && !HasCreate(before) && !HasStep(before))
  }

  // Commands are folded into the last create command, or, while there is none, into add-steps.
  lemma {:induction false} FoldLast(commands: seq<Command>)
    requires Fold(commands).State?
    ensures var s := Fold(commands);
      && (s.last >= 0 <==> HasCreate(commands) || HasStep(commands))
      && (s.last >= 0 ==> (s.actions[s.last].CreateJobFlow? <==> HasCreate(commands)))
    decreases |commands|
  {
    if commands != [] {
      var m := |commands| - 1;
      FailureStays(commands, m);
      FoldLast(commands[..m]);
      assert commands == commands[..m] + [commands[m]];
      HasAppended(commands[..m], commands[m]);
    }
  }

  lemma HasAppended(commands: seq<Command>, c: Command)
    ensures HasCreate(commands + [c]) <==> HasCreate(commands) || c.Create?
    ensures HasStep(commands + [c]) <==> HasStep(commands) || IsStep(c)
  {
    var all, m := commands + [c], |commands|;
    assert all[m] == c && forall n :: 0 <= n < m ==> all[n] == commands[n];
  }

  // Folding fails exactly when some command comes too early.
  lemma {:induction false} FoldFailsIff(commands: seq<Command>)
    ensures Fold(commands).Failed? <==> exists n :: 0 <= n < |commands| && TooEarly(commands[..n], commands[n])
    decreases |commands|
  {
    hide Next, TooEarly;
    if commands != [] {
      var m := |commands| - 1;
      var init := commands[..m];
      assert forall n :: 0 <= n < m ==> init[..n] == commands[..n] && init[n] == commands[n];
      FoldFailsIff(init);
      FailureStays(commands, m);
      if Fold(init).Failed? {
        var n :| 0 <= n < m && TooEarly(init[..n], init[n]);
        assert TooEarly(commands[..n], commands[n]);
      } else {
        NextFailsIff(init, commands[m]);
        assert Fold(commands).Failed? <==> TooEarly(commands[..m], commands[m]);
        forall n | 0 <= n < m ensures !TooEarly(commands[..n], commands[n]) {
          assert !TooEarly(init[..n], init[n]);
        }
      }
    }
  }

  lemma NextFailsIff(before: seq<Command>, c: Command)
    requires Fold(before).State?
    ensures Next(Fold(before), c).Failed? <==> TooEarly(before, c)
  {
    hide Fold, HasCreate, HasStep;
    FoldLast(before);
  }
}
