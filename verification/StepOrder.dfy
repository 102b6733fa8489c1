// Putting the steps of a job flow in order: installs before what needs them, debugging and restore first.
module StepOrder {
  // The classes of step commands; Ordinary stands for those that do not reorder anything.
  datatype Kind = Ordinary | Debugging | Restore | PigScript | PigInstall | HiveScript | HiveSite | HiveInstall

  // Steps with created set are install steps made for the step with the same id.
  datatype Step = Step(kind: Kind, id: nat, created: bool)

  // Whether the job flow already has what an install step would install.
  type Installed = Step -> bool

  // ---------------------------------------------------------------- installs

  function InstallFor(self: Step, install: Kind): Step {
    Step(install, self.id, true)
  }

  // Keeps the first install of the list, or makes one before the first step of the kind of self, and
  // drops all later ones.
  function Ensured(sc: seq<Step>, self: Step, install: Kind, has: bool): seq<Step> {
    if sc == [] then []
    else
      var cmd := sc[0];
      if cmd.kind == install then (if has then [] else [cmd]) + Ensured(sc[1..], self, install, true)
      else if cmd.kind == self.kind && !has then [InstallFor(self, install), cmd] + Ensured(sc[1..], self, install, true)
      else [cmd] + Ensured(sc[1..], self, install, has)
  }

  method EnsureInstallCmd(self: Step, install: Kind, installed: Installed, sc: seq<Step>) returns (r: seq<Step>)
    requires self.kind != install
    ensures r == if installed(InstallFor(self, install)) then sc else Ensured(sc, self, install, false)
  {
    var hasInstall := false;
    var installStep := InstallFor(self, install);
    if installed(installStep) {
      return sc;
    }
    r := [];
    hide Ensured;
    assert [] + Ensured(sc[0..], self, install, false) == Ensured(sc, self, install, false) by {
      assert sc[0..] == sc;
    }
    for i := 0 to |sc|
      invariant r + Ensured(sc[i..], self, install, hasInstall) == Ensured(sc, self, install, false)
    {
      var cmd := sc[i];
      EnsuredNext(r, sc, self, install, hasInstall, i);
      if cmd.kind == install {
        if hasInstall {
          continue;
        } else {
          hasInstall := true;
        }
      }
      if cmd.kind == self.kind {
        if !hasInstall {
          hasInstall := true;
          r := r + [installStep];
        }
      }
      r := r + [cmd];
    }
    EnsuredNone(self, install, hasInstall);
    assert r + [] == r;
  }

  lemma EnsuredNone(self: Step, install: Kind, has: bool)
    ensures Ensured([], self, install, has) == []
  {
  }

  lemma EnsuredNext(r: seq<Step>, sc: seq<Step>, self: Step, install: Kind, has: bool, i: nat)
    requires i < |sc| && self.kind != install
    ensures var cmd, rest := sc[i], sc[i + 1..];
      r + Ensured(sc[i..], self, install, has)
      == if cmd.kind == install then (if has then r else r + [cmd]) + Ensured(rest, self, install, true)
         else if cmd.kind == self.kind && !has then r + [InstallFor(self, install)] + [cmd] + Ensured(rest, self, install, true)
         else r + [cmd] + Ensured(rest, self, install, has)
  {
    var s := sc[i..];
    assert s[0] == sc[i] && s[1..] == sc[i + 1..];
    var e, f := Ensured(sc[i + 1..], self, install, true), Ensured(sc[i + 1..], self, install, has);
    assert r + ([] + e) == r + e && r + ([sc[i]] + e) == r + [sc[i]] + e && r + ([sc[i]] + f) == r + [sc[i]] + f;
    assert r + ([InstallFor(self, install), sc[i]] + e) == r + [InstallFor(self, install)] + [sc[i]] + e;
  }

  // ---------------------------------------------------------------- reordering

  function Without(sc: seq<Step>, kind: Kind): seq<Step> {
    if sc == [] then [] else (if sc[0].kind == kind then [] else [sc[0]]) + Without(sc[1..], kind)
  }

  function Reorder(self: Step, installed: Installed, sc: seq<Step>): seq<Step> {
    match self.kind
    case Debugging => [self] + Without(sc, Debugging)
    case Restore => [self] + Without(sc, Restore)
    case PigScript => if installed(InstallFor(self, PigInstall)) then sc else Ensured(sc, self, PigInstall, false)
    case HiveScript => if installed(InstallFor(self, HiveInstall)) then sc else Ensured(sc, self, HiveInstall, false)
    case HiveSite => if installed(InstallFor(self, HiveInstall)) then sc else Ensured(sc, self, HiveInstall, false)
    case _ => sc
  }

  method ReorderToFront(self: Step, sc: seq<Step>) returns (r: seq<Step>)
    ensures r == [self] + Without(sc, self.kind)
  {
    r := [];
    for i := 0 to |sc|
      invariant r + Without(sc[i..], self.kind) == Without(sc, self.kind)
    {
      assert sc[i..][0] == sc[i] && sc[i..][1..] == sc[i + 1..];
      ghost var before := r;
      if sc[i].kind != self.kind {
        r := r + [sc[i]];
      }
      assert r + Without(sc[i + 1..], self.kind) == before + Without(sc[i..], self.kind);
    }
    assert r + [] == r;
    r := [self] + r;
  }

  method ReorderOne(self: Step, installed: Installed, sc: seq<Step>) returns (r: seq<Step>)
    ensures r == Reorder(self, installed, sc)
  {
    match self.kind {
      case Debugging => { r := ReorderToFront(self, sc); }
      case Restore => { r := ReorderToFront(self, sc); }
      case PigScript => { r := EnsureInstallCmd(self, PigInstall, installed, sc); }
      case HiveScript => { r := EnsureInstallCmd(self, HiveInstall, installed, sc); }
      case HiveSite => { r := EnsureInstallCmd(self, HiveInstall, installed, sc); }
      case _ => { r := sc; }
    }
  }

  // Every step of the list has its turn, in the original order, on the list reordered so far.
  function Folded(sc: seq<Step>, installed: Installed, k: nat): seq<Step>
    requires k <= |sc|
  {
    if k == 0 then sc else Reorder(sc[k - 1], installed, Folded(sc, installed, k - 1))
  }

  method ReorderSteps(sc: seq<Step>, installed: Installed) returns (r: seq<Step>)
    ensures r == Folded(sc, installed, |sc|)
  {
    r := sc;
    for k := 0 to |sc|
      invariant r == Folded(sc, installed, k)
    {
      r := ReorderOne(sc[k], installed, r);
    }
  }

  // ---------------------------------------------------------------- steps that keep their order

  predicate Kept(s: Step) {
    s.kind != Debugging && s.kind != Restore && s.kind != PigInstall && s.kind != HiveInstall
  }

  predicate UsesPig(s: Step) {
    s.kind == PigScript
  }

  predicate UsesHive(s: Step) {
    s.kind == HiveScript || s.kind == HiveSite
  }

  function Filter(p: Step -> bool, sc: seq<Step>): (r: seq<Step>)
    ensures forall s :: s in r <==> s in sc && p(s)
  {
    if sc == [] then [] else (if p(sc[0]) then [sc[0]] else []) + Filter(p, sc[1..])
  }

  // p does not hold of steps of the kind.
  ghost predicate Ignores(p: Step -> bool, kind: Kind) {
    forall s: Step :: s.kind == kind ==> !p(s)
  }

  lemma {:induction false} FilterWithout(p: Step -> bool, sc: seq<Step>, kind: Kind)
    requires Ignores(p, kind)
    ensures Filter(p, Without(sc, kind)) == Filter(p, sc)
    decreases |sc|
  {
    if sc != [] {
      FilterWithout(p, sc[1..], kind);
      assert sc[0].kind != kind ==> ([sc[0]] + Without(sc[1..], kind))[1..] == Without(sc[1..], kind);
      assert sc[0].kind == kind ==> [] + Without(sc[1..], kind) == Without(sc[1..], kind);
    }
  }

  lemma FilterOfFirst(p: Step -> bool, s: Step, rest: seq<Step>)
    ensures Filter(p, [s] + rest) == if p(s) then [s] + Filter(p, rest) else Filter(p, rest)
  {
    assert ([s] + rest)[1..] == rest;
    assert [] + Filter(p, rest) == Filter(p, rest);
  }

  lemma {:induction false} FilterEnsured(p: Step -> bool, sc: seq<Step>, self: Step, install: Kind, has: bool)
    requires Ignores(p, install)
    ensures Filter(p, Ensured(sc, self, install, has)) == Filter(p, sc)
    decreases |sc|
  {
    hide Filter;
    FilterOfNone(p);
    if sc != [] {
      var cmd, rest := sc[0], sc[1..];
      assert sc == [cmd] + rest;
      FilterOfFirst(p, cmd, rest);
      if cmd.kind == install {
        var e := Ensured(rest, self, install, true);
        FilterEnsured(p, rest, self, install, true);
        FilterOfFirst(p, cmd, e);
        assert [] + e == e;
      } else if cmd.kind == self.kind && !has {
        var e := Ensured(rest, self, install, true);
        FilterEnsured(p, rest, self, install, true);
        FilterOfFirst(p, cmd, e);
        FilterOfFirst(p, InstallFor(self, install), [cmd] + e);
        assert [InstallFor(self, install), cmd] + e == [InstallFor(self, install)] + ([cmd] + e);
      } else {
        FilterEnsured(p, rest, self, install, has);
        FilterOfFirst(p, cmd, Ensured(rest, self, install, has));
      }
    }
  }

  lemma FilterOfNone(p: Step -> bool)
    ensures Filter(p, []) == []
  {
  }

  lemma FilterReorder(p: Step -> bool, self: Step, installed: Installed, sc: seq<Step>)
    requires Ignores(p, Debugging) && Ignores(p, Restore) && Ignores(p, PigInstall) && Ignores(p, HiveInstall)
    ensures Filter(p, Reorder(self, installed, sc)) == Filter(p, sc)
  {
    hide Filter, Ensured, Without, Ignores;
    match self.kind {
      case Debugging => {
        FilterWithout(p, sc, Debugging);
        FilterOfFirst(p, self, Without(sc, Debugging));
        Ignored(p, self);
      }
      case Restore => {
        FilterWithout(p, sc, Restore);
        FilterOfFirst(p, self, Without(sc, Restore));
        Ignored(p, self);
      }
      case PigScript => { FilterEnsured(p, sc, self, PigInstall, false); }
      case HiveScript => { FilterEnsured(p, sc, self, HiveInstall, false); }
      case HiveSite => { FilterEnsured(p, sc, self, HiveInstall, false); }
      case _ => {}
    }
  }

  lemma Ignored(p: Step -> bool, s: Step)
    requires Ignores(p, s.kind)
    ensures !p(s)
  {
  }

  lemma {:induction false} FilterFolded(p: Step -> bool, sc: seq<Step>, installed: Installed, k: nat)
    requires k <= |sc|
    requires Ignores(p, Debugging) && Ignores(p, Restore) && Ignores(p, PigInstall) && Ignores(p, HiveInstall)
    ensures Filter(p, Folded(sc, installed, k)) == Filter(p, sc)
  {
    hide Filter, Reorder, Ignores;
    if k > 0 {
      FilterFolded(p, sc, installed, k - 1);
      FilterReorder(p, sc[k - 1], installed, Folded(sc, installed, k - 1));
    }
  }

  // Steps other than installs, debugging and restore are neither lost nor added nor reordered.
  lemma OthersKeepOrder(sc: seq<Step>, installed: Installed)
    ensures Filter(Kept, Folded(sc, installed, |sc|)) == Filter(Kept, sc)
  {
    FilterFolded(Kept, sc, installed, |sc|);
  }

  // ---------------------------------------------------------------- installs come once and first

  predicate NoKind(sc: seq<Step>, kind: Kind) {
    forall i :: 0 <= i < |sc| ==> sc[i].kind != kind
  }

  // Exactly one install, and no user of it before.
  ghost predicate Ahead(sc: seq<Step>, install: Kind, user: Step -> bool) {
    sc != [] && if sc[0].kind == install then NoKind(sc[1..], install) else !user(sc[0]) && Ahead(sc[1..], install, user)
  }

  // The first user is of the kind of self, unless an install comes before it.
  ghost predicate Ready(sc: seq<Step>, self: Step, install: Kind, user: Step -> bool) {
    sc != [] && (sc[0].kind == install || if user(sc[0]) then sc[0].kind == self.kind else Ready(sc[1..], self, install, user))
  }

  lemma {:induction false} NoKindEnsured(sc: seq<Step>, self: Step, install: Kind, has: bool, kind: Kind)
    requires NoKind(sc, kind) && (kind != install || has)
    ensures NoKind(Ensured(sc, self, install, has), kind)
    decreases |sc|
  {
    if sc != [] {
      assert NoKind(sc[1..], kind);
      NoKindEnsured(sc[1..], self, install, true, kind);
      if has || kind != install {
        NoKindEnsured(sc[1..], self, install, has, kind);
      }
    }
  }

  lemma {:induction false} LaterInstallsDropped(sc: seq<Step>, self: Step, install: Kind)
    requires self.kind != install
    ensures NoKind(Ensured(sc, self, install, true), install)
    decreases |sc|
  {
    if sc != [] {
      LaterInstallsDropped(sc[1..], self, install);
    }
  }

  lemma AheadOfFirst(s: Step, rest: seq<Step>, install: Kind, user: Step -> bool)
    ensures Ahead([s] + rest, install, user)
      <==> if s.kind == install then NoKind(rest, install) else !user(s) && Ahead(rest, install, user)
  {
    assert ([s] + rest)[1..] == rest;
  }

  lemma {:induction false} EnsuredIsAhead(sc: seq<Step>, self: Step, install: Kind, user: Step -> bool)
    requires Ready(sc, self, install, user) && user(self) && self.kind != install && Ignores(user, install)
    requires forall s: Step :: s.kind == self.kind ==> user(s)
    ensures Ahead(Ensured(sc, self, install, false), install, user)
    decreases |sc|
  {
    hide Ahead, NoKind, Ignores;
    var cmd, rest := sc[0], sc[1..];
    var e := Ensured(rest, self, install, true);
    LaterInstallsDropped(rest, self, install);
    AheadOfFirst(cmd, e, install, user);
    if cmd.kind != install {
      if user(cmd) {
        assert [InstallFor(self, install), cmd] + e == [InstallFor(self, install)] + ([cmd] + e);
        AheadOfFirst(InstallFor(self, install), [cmd] + e, install, user);
        NoKindOfFirst(cmd, e, install);
      } else {
        EnsuredIsAhead(rest, self, install, user);
        AheadOfFirst(cmd, Ensured(rest, self, install, false), install, user);
      }
    }
  }

  lemma NoKindOfFirst(s: Step, rest: seq<Step>, kind: Kind)
    ensures NoKind([s] + rest, kind) <==> s.kind != kind && NoKind(rest, kind)
  {
    var all := [s] + rest;
    assert all[0] == s;
    assert forall i :: 0 < i < |all| ==> all[i] == rest[i - 1];
    assert forall i :: 0 <= i < |rest| ==> rest[i] == all[i + 1];
  }

  // Once the install is ahead, ensuring any install keeps it so.
  lemma {:induction false} AheadEnsured(sc: seq<Step>, self: Step, other: Kind, install: Kind, user: Step -> bool)
    requires Ahead(sc, install, user) && self.kind != other && self.kind != install
    requires other == install ==> forall s: Step :: s.kind == self.kind ==> user(s)
    requires Ignores(user, other)
    ensures Ahead(Ensured(sc, self, other, false), install, user)
    decreases |sc|
  {
    hide Ahead, NoKind;
    AheadEnsuredFrom(sc, self, other, install, user, false);
  }

  lemma {:induction false} AheadEnsuredFrom(sc: seq<Step>, self: Step, other: Kind, install: Kind, user: Step -> bool, has: bool)
    requires Ahead(sc, install, user) && self.kind != other && self.kind != install && Ignores(user, other)
    requires other == install ==> !has && forall s: Step :: s.kind == self.kind ==> user(s)
    ensures Ahead(Ensured(sc, self, other, has), install, user)
    decreases |sc|
  {
    hide Ahead, NoKind;
    AheadUnfold(sc, install, user);
    var cmd, rest := sc[0], sc[1..];
    if cmd.kind == install {
      NoKindEnsured(rest, self, other, has || other == install, install);
      AheadOfFirst(cmd, Ensured(rest, self, other, has || other == install), install, user);
    } else {
      if cmd.kind == other {
        var e := Ensured(rest, self, other, true);
        AheadEnsuredFrom(rest, self, other, install, user, true);
        AheadOfFirst(cmd, e, install, user);
        assert [] + e == e;
      } else if cmd.kind == self.kind && !has {
        var e, i := Ensured(rest, self, other, true), InstallFor(self, other);
        AheadEnsuredFrom(rest, self, other, install, user, true);
        AheadOfFirst(cmd, e, install, user);
        AheadOfFirst(i, [cmd] + e, install, user);
        assert [i, cmd] + e == [i] + ([cmd] + e);
      } else {
        AheadEnsuredFrom(rest, self, other, install, user, has);
        AheadOfFirst(cmd, Ensured(rest, self, other, has), install, user);
      }
    }
  }

  lemma AheadUnfold(sc: seq<Step>, install: Kind, user: Step -> bool)
    requires Ahead(sc, install, user)
    ensures sc != [] && if sc[0].kind == install then NoKind(sc[1..], install) else !user(sc[0]) && Ahead(sc[1..], install, user)
  {
  }

  lemma {:induction false} NoKindWithout(sc: seq<Step>, dropped: Kind, kind: Kind)
    requires kind == dropped || NoKind(sc, kind)
    ensures NoKind(Without(sc, dropped), kind)
    decreases |sc|
  {
    if sc != [] {
      NoKindWithout(sc[1..], dropped, kind);
    }
  }

  lemma {:induction false} AheadWithout(sc: seq<Step>, dropped: Kind, install: Kind, user: Step -> bool)
    requires Ahead(sc, install, user) && dropped != install
    ensures Ahead(Without(sc, dropped), install, user)
    decreases |sc|
  {
    hide Ahead, NoKind;
    AheadUnfold(sc, install, user);
    var w := Without(sc[1..], dropped);
    AheadOfFirst(sc[0], w, install, user);
    if sc[0].kind == install {
      NoKindWithout(sc[1..], dropped, install);
    } else {
      AheadWithout(sc[1..], dropped, install, user);
      assert [] + w == w;
    }
  }

  // The uses of an install, and the steps that ensure it.
  ghost predicate Uses(user: Step -> bool, install: Kind) {
    || (install == PigInstall && forall s: Step :: user(s) <==> s.kind == PigScript)
    || (install == HiveInstall && forall s: Step :: user(s) <==> s.kind == HiveScript || s.kind == HiveSite)
  }

  lemma AheadReorder(self: Step, installed: Installed, sc: seq<Step>, install: Kind, user: Step -> bool)
    requires Uses(user, install) && Ahead(sc, install, user)
    ensures Ahead(Reorder(self, installed, sc), install, user)
  {
    hide Ahead, Ensured, Without;
    match self.kind {
      case Debugging => {
        AheadWithout(sc, Debugging, install, user);
        AheadOfFirst(self, Without(sc, Debugging), install, user);
      }
      case Restore => {
        AheadWithout(sc, Restore, install, user);
        AheadOfFirst(self, Without(sc, Restore), install, user);
      }
      case PigScript => { AheadEnsured(sc, self, PigInstall, install, user); }
      case HiveScript => { AheadEnsured(sc, self, HiveInstall, install, user); }
      case HiveSite => { AheadEnsured(sc, self, HiveInstall, install, user); }
      case _ => {}
    }
  }

  lemma {:induction false} ReadyFromFilter(sc: seq<Step>, self: Step, install: Kind, user: Step -> bool)
    requires Filter(user, sc) != [] && Filter(user, sc)[0].kind == self.kind
    ensures Ready(sc, self, install, user)
    decreases |sc|
  {
    if !user(sc[0]) {
      assert [] + Filter(user, sc[1..]) == Filter(user, sc[1..]);
      ReadyFromFilter(sc[1..], self, install, user);
    }
  }

  lemma {:induction false} FirstUser(sc: seq<Step>, k: nat, user: Step -> bool)
    requires k < |sc| && user(sc[k]) && forall i :: 0 <= i < k ==> !user(sc[i])
    ensures Filter(user, sc) != [] && Filter(user, sc)[0] == sc[k]
    decreases k
  {
    if k > 0 {
      assert [] + Filter(user, sc[1..]) == Filter(user, sc[1..]);
      FirstUser(sc[1..], k - 1, user);
    }
  }

  lemma FirstUserGoesAhead(self: Step, installed: Installed, sc: seq<Step>, install: Kind, user: Step -> bool)
    requires Uses(user, install) && user(self) && Filter(user, sc) != [] && Filter(user, sc)[0] == self
    requires forall s: Step :: s.kind == install ==> !installed(s)
    ensures Ahead(Reorder(self, installed, sc), install, user)
  {
    hide Filter, Ensured, Ahead, Ready;
    ReadyFromFilter(sc, self, install, user);
    EnsuredIsAhead(sc, self, install, user);
  }

  lemma UsesIgnores(user: Step -> bool, install: Kind)
    requires Uses(user, install)
    ensures Ignores(user, Debugging) && Ignores(user, Restore) && Ignores(user, PigInstall) && Ignores(user, HiveInstall)
  {
  }

  lemma {:induction false} InstallGoesAhead(sc: seq<Step>, installed: Installed, k: nat, install: Kind, user: Step -> bool, i: nat)
    requires Uses(user, install) && i < k <= |sc| && user(sc[i])
    requires forall s: Step :: s.kind == install ==> !installed(s)
    ensures Ahead(Folded(sc, installed, k), install, user)
    decreases k
  {
    hide Ahead, Filter, Reorder, Uses, Ignores;
    if j: nat :| j < k - 1 && user(sc[j]) {
      InstallGoesAhead(sc, installed, k - 1, install, user, j);
      AheadReorder(sc[k - 1], installed, Folded(sc, installed, k - 1), install, user);
    } else {
      UsesIgnores(user, install);
      FirstUser(sc, k - 1, user);
      FilterFolded(user, sc, installed, k - 1);
      FirstUserGoesAhead(sc[k - 1], installed, Folded(sc, installed, k - 1), install, user);
    }
  }

  // Exactly one install, ahead of every user, by position.
  ghost predicate OneInstallAhead(sc: seq<Step>, install: Kind, user: Step -> bool) {
    exists i :: 0 <= i < |sc| && sc[i].kind == install
      && (forall j :: 0 <= j < |sc| && j != i ==> sc[j].kind != install) && (forall j :: 0 <= j < i ==> !user(sc[j]))
  }

  lemma {:induction false} AheadByPosition(sc: seq<Step>, install: Kind, user: Step -> bool)
    requires Ahead(sc, install, user)
    ensures OneInstallAhead(sc, install, user)
    decreases |sc|
  {
    var rest := sc[1..];
    if sc[0].kind == install {
      assert forall j :: 0 < j < |sc| ==> sc[j] == rest[j - 1];
    } else {
      AheadByPosition(rest, install, user);
      var i :| 0 <= i < |rest| && rest[i].kind == install
        && (forall j :: 0 <= j < |rest| && j != i ==> rest[j].kind != install) && (forall j :: 0 <= j < i ==> !user(rest[j]));
      assert sc[i + 1].kind == install;
      assert forall j :: 0 < j < |sc| ==> sc[j] == rest[j - 1];
    }
  }

  // On a job flow without Pig, reordering leaves exactly one Pig install, ahead of every Pig script.
  lemma PigInstallAhead(sc: seq<Step>, installed: Installed)
    requires forall s: Step :: s.kind == PigInstall ==> !installed(s)
    requires exists i :: 0 <= i < |sc| && UsesPig(sc[i])
    ensures OneInstallAhead(Folded(sc, installed, |sc|), PigInstall, UsesPig)
  {
    var i :| 0 <= i < |sc| && UsesPig(sc[i]);
    InstallGoesAhead(sc, installed, |sc|, PigInstall, UsesPig, i);
    AheadByPosition(Folded(sc, installed, |sc|), PigInstall, UsesPig);
  }

  lemma HiveInstallAhead(sc: seq<Step>, installed: Installed)
    requires forall s: Step :: s.kind == HiveInstall ==> !installed(s)
    requires exists i :: 0 <= i < |sc| && UsesHive(sc[i])
    ensures OneInstallAhead(Folded(sc, installed, |sc|), HiveInstall, UsesHive)
  {
    var i :| 0 <= i < |sc| && UsesHive(sc[i]);
    InstallGoesAhead(sc, installed, |sc|, HiveInstall, UsesHive, i);
    AheadByPosition(Folded(sc, installed, |sc|), HiveInstall, UsesHive);
  }

  // ---------------------------------------------------------------- which install remains

  function IsKind(kind: Kind): Step -> bool {
    (s: Step) => s.kind == kind
  }

  function OtherInstall(install: Kind): Kind {
    if install == PigInstall then HiveInstall else PigInstall
  }

  // A step that does not use the install, or finds it on the job flow, leaves alone whatever p selects.
  lemma ReorderLeaves(p: Step -> bool, self: Step, installed: Installed, sc: seq<Step>, install: Kind, user: Step -> bool)
    requires Uses(user, install) && (user(self) ==> installed(InstallFor(self, install)))
    requires Ignores(p, Debugging) && Ignores(p, Restore) && Ignores(p, OtherInstall(install))
    ensures Filter(p, Reorder(self, installed, sc)) == Filter(p, sc)
  {
    hide Filter, Ensured, Without, Ignores;
    match self.kind {
      case Debugging => {
        FilterWithout(p, sc, Debugging);
        FilterOfFirst(p, self, Without(sc, Debugging));
        Ignored(p, self);
      }
      case Restore => {
        FilterWithout(p, sc, Restore);
        FilterOfFirst(p, self, Without(sc, Restore));
        Ignored(p, self);
      }
      case PigScript => {
        if install == HiveInstall {
          FilterEnsured(p, sc, self, PigInstall, false);
        }
      }
      case HiveScript => {
        if install == PigInstall {
          FilterEnsured(p, sc, self, HiveInstall, false);
        }
      }
      case HiveSite => {
        if install == PigInstall {
          FilterEnsured(p, sc, self, HiveInstall, false);
        }
      }
      case _ => {}
    }
  }

  // On a job flow that already has the install, and whatever holds of the other one: the install steps and
  // all steps but debugging, restore and the other install stay as they were, in order.
  lemma {:induction false} PresentInstallStays(p: Step -> bool, sc: seq<Step>, installed: Installed, k: nat, install: Kind, user: Step -> bool)
    requires k <= |sc| && Uses(user, install) && forall s: Step :: s.kind == install ==> installed(s)
    requires Ignores(p, Debugging) && Ignores(p, Restore) && Ignores(p, OtherInstall(install))
    ensures Filter(p, Folded(sc, installed, k)) == Filter(p, sc)
  {
    hide Filter, Reorder, Uses, Ignores;
    if k > 0 {
      PresentInstallStays(p, sc, installed, k - 1, install, user);
      ReorderLeaves(p, sc[k - 1], installed, Folded(sc, installed, k - 1), install, user);
    }
  }

  lemma PigInstallsStay(sc: seq<Step>, installed: Installed)
    requires forall s: Step :: s.kind == PigInstall ==> installed(s)
    ensures Filter(IsKind(PigInstall), Folded(sc, installed, |sc|)) == Filter(IsKind(PigInstall), sc)
  {
    hide Filter;
    PresentInstallStays(IsKind(PigInstall), sc, installed, |sc|, PigInstall, UsesPig);
  }

  lemma HiveInstallsStay(sc: seq<Step>, installed: Installed)
    requires forall s: Step :: s.kind == HiveInstall ==> installed(s)
    ensures Filter(IsKind(HiveInstall), Folded(sc, installed, |sc|)) == Filter(IsKind(HiveInstall), sc)
  {
    hide Filter;
    PresentInstallStays(IsKind(HiveInstall), sc, installed, |sc|, HiveInstall, UsesHive);
  }

  lemma {:induction false} NoneToFilter(sc: seq<Step>, kind: Kind)
    requires NoKind(sc, kind)
    ensures Filter(IsKind(kind), sc) == []
    decreases |sc|
  {
    if sc != [] {
      NoneToFilter(sc[1..], kind);
    }
  }

  // Once the install is ahead, ensuring it again changes nothing.
  lemma {:induction false} AheadIsEnsured(sc: seq<Step>, self: Step, install: Kind, user: Step -> bool)
    requires Uses(user, install) && Ahead(sc, install, user) && user(self)
    ensures Ensured(sc, self, install, false) == sc
    decreases |sc|
  {
    hide NoKind;
    var cmd, rest := sc[0], sc[1..];
    assert sc == [cmd] + rest;
    EnsuredOfFirst(cmd, rest, self, install);
    if cmd.kind == install {
      NothingToDrop(rest, self, install);
    } else {
      AheadIsEnsured(rest, self, install, user);
    }
  }

  lemma {:induction false} NothingToDrop(sc: seq<Step>, self: Step, install: Kind)
    requires NoKind(sc, install)
    ensures Ensured(sc, self, install, true) == sc
    decreases |sc|
  {
    if sc != [] {
      assert NoKind(sc[1..], install);
      NothingToDrop(sc[1..], self, install);
    }
  }

  lemma EnsuredOfFirst(cmd: Step, rest: seq<Step>, self: Step, install: Kind)
    requires self.kind != install
    ensures Ensured([cmd] + rest, self, install, false)
      == if cmd.kind == install then [cmd] + Ensured(rest, self, install, true)
         else if cmd.kind == self.kind then [InstallFor(self, install)] + ([cmd] + Ensured(rest, self, install, true))
         else [cmd] + Ensured(rest, self, install, false)
  {
    var e := Ensured(rest, self, install, true);
    assert ([cmd] + rest)[1..] == rest;
    assert [InstallFor(self, install), cmd] + e == [InstallFor(self, install)] + ([cmd] + e);
  }

  // The steps of the kind and their users.
  ghost predicate Either(p: Step -> bool, install: Kind, user: Step -> bool) {
    forall s: Step :: p(s) <==> user(s) || s.kind == install
  }

  // p selects these at least.
  ghost predicate Selects(p: Step -> bool, install: Kind, user: Step -> bool) {
    forall s: Step :: user(s) || s.kind == install ==> p(s)
  }

  // The install that is left when it has to be there: the first one of the list, if no user comes before
  // it, and one made for the first user else.
  function TheInstall(first: Step, install: Kind): Step {
    if first.kind == install then first else Step(install, first.id, true)
  }

  // The list with that install in the place of the first, or right before the first user, and no other.
  ghost function WithInstall(sc: seq<Step>, install: Kind, user: Step -> bool): seq<Step> {
    if sc == [] then []
    else if user(sc[0]) || sc[0].kind == install then [TheInstall(sc[0], install)] + Without(sc, install)
    else [sc[0]] + WithInstall(sc[1..], install, user)
  }

  lemma WithoutFirst(cmd: Step, rest: seq<Step>, kind: Kind)
    ensures Without([cmd] + rest, kind) == if cmd.kind == kind then Without(rest, kind) else [cmd] + Without(rest, kind)
  {
    assert ([cmd] + rest)[1..] == rest;
    assert [] + Without(rest, kind) == Without(rest, kind);
  }

  lemma WithInstallOfFirst(cmd: Step, rest: seq<Step>, install: Kind, user: Step -> bool)
    ensures WithInstall([cmd] + rest, install, user)
      == if user(cmd) || cmd.kind == install then [TheInstall(cmd, install)] + Without([cmd] + rest, install)
         else [cmd] + WithInstall(rest, install, user)
  {
    assert ([cmd] + rest)[1..] == rest;
  }

  // After the first install all others are dropped, whatever else is selected.
  lemma {:induction false} EnsuredDrops(p: Step -> bool, sc: seq<Step>, self: Step, install: Kind)
    requires self.kind != install
    ensures Filter(p, Ensured(sc, self, install, true)) == Without(Filter(p, sc), install)
    decreases |sc|
  {
    FilterOfNone(p);
    hide Filter, Without;
    WithoutNone(install);
    if sc != [] {
      var cmd, rest := sc[0], sc[1..];
      var e := Ensured(rest, self, install, true);
      assert sc == [cmd] + rest;
      FilterOfFirst(p, cmd, rest);
      EnsuredDrops(p, rest, self, install);
      FilterOfFirst(p, cmd, e);
      WithoutFirst(cmd, Filter(p, rest), install);
      assert [] + e == e;
    }
  }

  lemma WithoutNone(kind: Kind)
    ensures Without([], kind) == []
  {
  }

  lemma {:induction false} EnsuredPlaces(sc: seq<Step>, self: Step, install: Kind, user: Step -> bool, either: Step -> bool, p: Step -> bool)
    requires Uses(user, install) && Either(either, install, user) && Selects(p, install, user) && user(self)
    requires Filter(either, sc) != [] && (Filter(either, sc)[0].kind == install || Filter(either, sc)[0] == self)
    ensures Filter(p, Ensured(sc, self, install, false)) == WithInstall(Filter(p, sc), install, user)
    decreases |sc|
  {
    FilterOfNone(either);
    hide Filter, Ensured, Without, WithInstall;
    var cmd, rest := sc[0], sc[1..];
    assert sc == [cmd] + rest;
    var l := Filter(p, rest);
    FilterOfFirst(either, cmd, rest);
    FilterOfFirst(p, cmd, rest);
    EnsuredOfFirst(cmd, rest, self, install);
    WithInstallOfFirst(cmd, l, install, user);
    WithoutFirst(cmd, l, install);
    if user(cmd) || cmd.kind == install {
      var e, made := Ensured(rest, self, install, true), InstallFor(self, install);
      EnsuredDrops(p, rest, self, install);
      FilterOfFirst(p, cmd, e);
      FilterOfFirst(p, made, [cmd] + e);
    } else {
      EnsuredPlaces(rest, self, install, user, either, p);
      FilterOfFirst(p, cmd, Ensured(rest, self, install, false));
    }
  }

  lemma ReorderKeepsInstall(self: Step, installed: Installed, sc: seq<Step>, install: Kind, user: Step -> bool, p: Step -> bool)
    requires Uses(user, install) && Ahead(sc, install, user) && forall s: Step :: s.kind == install ==> !installed(s)
    requires Ignores(p, Debugging) && Ignores(p, Restore) && Ignores(p, OtherInstall(install))
    ensures Filter(p, Reorder(self, installed, sc)) == Filter(p, sc)
  {
    hide Filter, Ahead, Ensured, Without, Ignores;
    if user(self) {
      AheadIsEnsured(sc, self, install, user);
    } else {
      ReorderLeaves(p, self, installed, sc, install, user);
    }
  }

  lemma EitherIgnores(p: Step -> bool, install: Kind, user: Step -> bool)
    requires Uses(user, install) && Either(p, install, user)
    ensures Ignores(p, Debugging) && Ignores(p, Restore) && Ignores(p, OtherInstall(install))
  {
  }

  // Before the first user has had its turn, the steps of the kind, their users and the others are as they were.
  lemma {:induction false} UsersWait(sc: seq<Step>, installed: Installed, k: nat, install: Kind, user: Step -> bool, p: Step -> bool)
    requires Uses(user, install) && k <= |sc| && forall i :: 0 <= i < k ==> !user(sc[i])
    requires Ignores(p, Debugging) && Ignores(p, Restore) && Ignores(p, OtherInstall(install))
    ensures Filter(p, Folded(sc, installed, k)) == Filter(p, sc)
  {
    hide Filter, Reorder, Uses, Ignores;
    if k > 0 {
      UsersWait(sc, installed, k - 1, install, user, p);
      ReorderLeaves(p, sc[k - 1], installed, Folded(sc, installed, k - 1), install, user);
    }
  }

  lemma {:induction false} FirstOfEither(sc: seq<Step>, k: nat, install: Kind, user: Step -> bool, p: Step -> bool)
    requires Either(p, install, user) && k < |sc| && user(sc[k]) && forall i :: 0 <= i < k ==> !user(sc[i])
    ensures Filter(p, sc) != [] && (Filter(p, sc)[0].kind == install || Filter(p, sc)[0] == sc[k])
    decreases k
  {
    hide Filter;
    var cmd, rest := sc[0], sc[1..];
    assert sc == [cmd] + rest;
    FilterOfFirst(p, cmd, rest);
    if k > 0 && cmd.kind != install {
      FirstOfEither(rest, k - 1, install, user, p);
    }
  }

  // On a job flow without the install, i being the first step that uses it.
  lemma {:induction false} InstallIsPlaced(sc: seq<Step>, installed: Installed, k: nat, install: Kind, user: Step -> bool,
                                           either: Step -> bool, p: Step -> bool, i: nat)
    requires Uses(user, install) && Either(either, install, user) && Selects(p, install, user)
    requires Ignores(p, Debugging) && Ignores(p, Restore) && Ignores(p, OtherInstall(install))
    requires forall s: Step :: s.kind == install ==> !installed(s)
    requires i < k <= |sc| && user(sc[i]) && forall j :: 0 <= j < i ==> !user(sc[j])
    ensures Filter(p, Folded(sc, installed, k)) == WithInstall(Filter(p, sc), install, user)
    decreases k
  {
    hide *;
    var before := Folded(sc, installed, k - 1);
    FoldedNext(sc, installed, k);
    if i < k - 1 {
      InstallIsPlaced(sc, installed, k - 1, install, user, either, p, i);
      InstallGoesAhead(sc, installed, k - 1, install, user, i);
      ReorderKeepsInstall(sc[k - 1], installed, before, install, user, p);
    } else {
      FirstOfEither(sc, i, install, user, either);
      EitherIgnores(either, install, user);
      UsersWait(sc, installed, k - 1, install, user, either);
      UsersWait(sc, installed, k - 1, install, user, p);
      FirstUserPlaces(before, sc[k - 1], installed, install, user, either, p);
    }
  }

  lemma FoldedNext(sc: seq<Step>, installed: Installed, k: nat)
    requires 0 < k <= |sc|
    ensures Folded(sc, installed, k) == Reorder(sc[k - 1], installed, Folded(sc, installed, k - 1))
  {
    hide Reorder;
  }

  lemma FirstUserPlaces(sc: seq<Step>, self: Step, installed: Installed, install: Kind, user: Step -> bool, either: Step -> bool, p: Step -> bool)
    requires Uses(user, install) && Either(either, install, user) && Selects(p, install, user) && user(self)
    requires forall s: Step :: s.kind == install ==> !installed(s)
    requires Filter(either, sc) != [] && (Filter(either, sc)[0].kind == install || Filter(either, sc)[0] == self)
    ensures Filter(p, Reorder(self, installed, sc)) == WithInstall(Filter(p, sc), install, user)
  {
    hide Filter, Either, Ensured, Selects, WithInstall;
    EnsuredPlaces(sc, self, install, user, either, p);
  }

  // All steps but debugging, restore and the other install.
  function Besides(install: Kind): Step -> bool {
    (s: Step) => s.kind != Debugging && s.kind != Restore && s.kind != OtherInstall(install)
  }

  lemma {:induction false} FirstIndex(sc: seq<Step>, user: Step -> bool) returns (i: nat)
    requires exists j :: 0 <= j < |sc| && user(sc[j])
    ensures i < |sc| && user(sc[i]) && forall j :: 0 <= j < i ==> !user(sc[j])
    decreases |sc|
  {
    i := 0;
    if !user(sc[0]) {
      assert forall j :: 0 < j < |sc| ==> sc[j] == sc[1..][j - 1];
      i := FirstIndex(sc[1..], user);
      i := i + 1;
    }
  }

  // By position: everything before the first install or user stays, then comes the install, then the rest
  // without any other.
  lemma {:induction false} WithInstallByPosition(sc: seq<Step>, install: Kind, user: Step -> bool, i: nat)
    requires i < |sc| && (user(sc[i]) || sc[i].kind == install) && forall j :: 0 <= j < i ==> !user(sc[j]) && sc[j].kind != install
    ensures WithInstall(sc, install, user) == sc[..i] + ([TheInstall(sc[i], install)] + Without(sc[i..], install))
    decreases i
  {
    hide Without;
    if i > 0 {
      WithInstallByPosition(sc[1..], install, user, i - 1);
      assert sc[1..][i - 1..] == sc[i..] && sc[..i] == [sc[0]] + sc[1..][..i - 1];
    } else {
      assert sc[0..] == sc;
    }
  }

  ghost predicate IsPlaced(before: seq<Step>, after: seq<Step>, install: Kind, user: Step -> bool) {
    exists i :: 0 <= i < |before| && (user(before[i]) || before[i].kind == install)
      && (forall j :: 0 <= j < i ==> !user(before[j]) && before[j].kind != install)
      && after == before[..i] + ([TheInstall(before[i], install)] + Without(before[i..], install))
  }

  lemma PlacedByPosition(sc: seq<Step>, install: Kind, user: Step -> bool, either: Step -> bool)
    requires Either(either, install, user) && exists i :: 0 <= i < |sc| && either(sc[i])
    ensures IsPlaced(sc, WithInstall(sc, install, user), install, user)
  {
    hide WithInstall, Without;
    var i := FirstIndex(sc, either);
    WithInstallByPosition(sc, install, user, i);
  }

  lemma UserIsSelected(sc: seq<Step>, k: nat, install: Kind, user: Step -> bool, either: Step -> bool, p: Step -> bool)
    requires Either(either, install, user) && Selects(p, install, user) && k < |sc| && user(sc[k])
    ensures exists i :: 0 <= i < |Filter(p, sc)| && either(Filter(p, sc)[i])
  {
    var l := Filter(p, sc);
    assert sc[k] in l;
    var i :| 0 <= i < |l| && l[i] == sc[k];
    assert either(l[i]);
  }

  // A job flow without Pig: of the steps besides debugging, restore and Hive installs all stay in order but
  // for the Pig installs, of which one remains where the first was, or before the first script.
  lemma PigInstallIs(sc: seq<Step>, installed: Installed)
    requires forall s: Step :: s.kind == PigInstall ==> !installed(s)
    requires exists i :: 0 <= i < |sc| && UsesPig(sc[i])
    ensures IsPlaced(Filter(Besides(PigInstall), sc), Filter(Besides(PigInstall), Folded(sc, installed, |sc|)), PigInstall, UsesPig)
  {
    hide Filter, IsPlaced, Folded, WithInstall;
    var i := FirstIndex(sc, UsesPig);
    var either := (s: Step) => s.kind == PigScript || s.kind == PigInstall;
    InstallIsPlaced(sc, installed, |sc|, PigInstall, UsesPig, either, Besides(PigInstall), i);
    UserIsSelected(sc, i, PigInstall, UsesPig, either, Besides(PigInstall));
    PlacedByPosition(Filter(Besides(PigInstall), sc), PigInstall, UsesPig, either);
  }

  lemma HiveInstallIs(sc: seq<Step>, installed: Installed)
    requires forall s: Step :: s.kind == HiveInstall ==> !installed(s)
    requires exists i :: 0 <= i < |sc| && UsesHive(sc[i])
    ensures IsPlaced(Filter(Besides(HiveInstall), sc), Filter(Besides(HiveInstall), Folded(sc, installed, |sc|)), HiveInstall, UsesHive)
  {
    hide Filter, IsPlaced, Folded, WithInstall;
    var i := FirstIndex(sc, UsesHive);
    var either := (s: Step) => s.kind == HiveScript || s.kind == HiveSite || s.kind == HiveInstall;
    InstallIsPlaced(sc, installed, |sc|, HiveInstall, UsesHive, either, Besides(HiveInstall), i);
    UserIsSelected(sc, i, HiveInstall, UsesHive, either, Besides(HiveInstall));
    PlacedByPosition(Filter(Besides(HiveInstall), sc), HiveInstall, UsesHive, either);
  }

  // Without a user of it no install is added or dropped, whether the job flow has it or not.
  lemma UnusedInstallsStay(sc: seq<Step>, installed: Installed, install: Kind, user: Step -> bool)
    requires Uses(user, install) && forall i :: 0 <= i < |sc| ==> !user(sc[i])
    ensures Filter(IsKind(install), Folded(sc, installed, |sc|)) == Filter(IsKind(install), sc)
  {
    UnusedStay(sc, installed, |sc|, install, user);
  }

  lemma {:induction false} UnusedStay(sc: seq<Step>, installed: Installed, k: nat, install: Kind, user: Step -> bool)
    requires k <= |sc| && Uses(user, install) && forall i :: 0 <= i < |sc| ==> !user(sc[i])
    ensures Filter(IsKind(install), Folded(sc, installed, k)) == Filter(IsKind(install), sc)
  {
    hide Filter, Reorder;
    if k > 0 {
      UnusedStay(sc, installed, k - 1, install, user);
      ReorderLeaves(IsKind(install), sc[k - 1], installed, Folded(sc, installed, k - 1), install, user);
    }
  }

  // ---------------------------------------------------------------- debugging and restore come first

  // One step of the kind, and only steps of the other kind before it.
  ghost predicate AtFront(sc: seq<Step>, kind: Kind, other: Kind) {
    sc != [] && if sc[0].kind == kind then NoKind(sc[1..], kind) else sc[0].kind == other && AtFront(sc[1..], kind, other)
  }

  predicate IsFront(kind: Kind, other: Kind) {
    (kind == Debugging && other == Restore) || (kind == Restore && other == Debugging)
  }

  lemma AtFrontOfFirst(s: Step, rest: seq<Step>, kind: Kind, other: Kind)
    ensures AtFront([s] + rest, kind, other)
      <==> if s.kind == kind then NoKind(rest, kind) else s.kind == other && AtFront(rest, kind, other)
  {
    assert ([s] + rest)[1..] == rest;
  }

  lemma {:induction false} AtFrontWithout(sc: seq<Step>, kind: Kind, other: Kind)
    requires AtFront(sc, kind, other) && kind != other
    ensures AtFront(Without(sc, other), kind, other)
    decreases |sc|
  {
    hide NoKind;
    var w := Without(sc[1..], other);
    if sc[0].kind == kind {
      NoKindWithout(sc[1..], other, kind);
      AtFrontOfFirst(sc[0], w, kind, other);
    } else {
      AtFrontWithout(sc[1..], kind, other);
      assert [] + w == w;
    }
  }

  lemma {:induction false} AtFrontEnsured(sc: seq<Step>, self: Step, install: Kind, kind: Kind, other: Kind)
    requires AtFront(sc, kind, other) && IsFront(kind, other)
    requires install == PigInstall || install == HiveInstall
    requires self.kind != kind && self.kind != other
    ensures AtFront(Ensured(sc, self, install, false), kind, other)
    decreases |sc|
  {
    hide NoKind;
    var rest := sc[1..];
    var e := Ensured(rest, self, install, false);
    AtFrontOfFirst(sc[0], e, kind, other);
    if sc[0].kind == kind {
      NoKindEnsured(rest, self, install, false, kind);
    } else {
      AtFrontEnsured(rest, self, install, kind, other);
    }
  }

  lemma AtFrontReorder(self: Step, installed: Installed, sc: seq<Step>, kind: Kind, other: Kind)
    requires IsFront(kind, other) && (self.kind == kind || AtFront(sc, kind, other))
    ensures AtFront(Reorder(self, installed, sc), kind, other)
  {
    hide AtFront, Ensured, Without;
    if self.kind == kind {
      NoKindWithout(sc, kind, kind);
      AtFrontOfFirst(self, Without(sc, kind), kind, other);
    } else if self.kind == other {
      AtFrontWithout(sc, kind, other);
      AtFrontOfFirst(self, Without(sc, other), kind, other);
    } else if self.kind == PigScript {
      AtFrontEnsured(sc, self, PigInstall, kind, other);
    } else if UsesHive(self) {
      AtFrontEnsured(sc, self, HiveInstall, kind, other);
    }
  }

  lemma NoKindReorder(self: Step, installed: Installed, sc: seq<Step>, kind: Kind, other: Kind)
    requires IsFront(kind, other) && self.kind != kind && NoKind(sc, kind)
    ensures NoKind(Reorder(self, installed, sc), kind)
  {
    hide NoKind, Ensured, Without;
    if self.kind == other {
      NoKindWithout(sc, other, kind);
      NoKindOfFirst(self, Without(sc, other), kind);
    } else if self.kind == PigScript {
      NoKindEnsured(sc, self, PigInstall, false, kind);
    } else if UsesHive(self) {
      NoKindEnsured(sc, self, HiveInstall, false, kind);
    }
  }

  lemma {:induction false} FrontFolded(sc: seq<Step>, installed: Installed, k: nat, kind: Kind, other: Kind)
    requires IsFront(kind, other) && k <= |sc|
    ensures (exists i :: 0 <= i < k && sc[i].kind == kind) ==> AtFront(Folded(sc, installed, k), kind, other)
    ensures NoKind(sc, kind) ==> NoKind(Folded(sc, installed, k), kind)
  {
    hide AtFront, Reorder;
    if k > 0 {
      FrontFolded(sc, installed, k - 1, kind, other);
      var before := Folded(sc, installed, k - 1);
      if sc[k - 1].kind == kind || AtFront(before, kind, other) {
        AtFrontReorder(sc[k - 1], installed, before, kind, other);
      }
      if NoKind(sc, kind) {
        NoKindReorder(sc[k - 1], installed, before, kind, other);
      }
    }
  }

  lemma {:induction false} FrontByPosition(sc: seq<Step>, kind: Kind, other: Kind)
    requires AtFront(sc, kind, other)
    ensures exists i :: 0 <= i < |sc| && sc[i].kind == kind
    ensures forall i, j :: 0 <= i < j < |sc| && sc[j].kind == kind ==> sc[i].kind == other
    decreases |sc|
  {
    var rest := sc[1..];
    assert forall j :: 0 < j < |sc| ==> sc[j] == rest[j - 1];
    if sc[0].kind != kind {
      FrontByPosition(rest, kind, other);
      var i :| 0 <= i < |rest| && rest[i].kind == kind;
      assert sc[i + 1].kind == kind;
    }
  }

  // At most one debugging and one restore step remain, ahead of all others, and one of each kind that
  // was in the list.
  lemma FrontStepsFirst(sc: seq<Step>, installed: Installed, kind: Kind, other: Kind)
    requires IsFront(kind, other)
    ensures var r := Folded(sc, installed, |sc|);
      && ((exists i :: 0 <= i < |r| && r[i].kind == kind) <==> (exists i :: 0 <= i < |sc| && sc[i].kind == kind))
      && (forall i, j :: 0 <= i < j < |r| && r[j].kind == kind ==> r[i].kind == other)
  {
    hide AtFront;
    var r := Folded(sc, installed, |sc|);
    FrontFolded(sc, installed, |sc|, kind, other);
    if exists i :: 0 <= i < |sc| && sc[i].kind == kind {
      FrontByPosition(r, kind, other);
    } else {
      assert NoKind(sc, kind);
    }
  }

  // ---------------------------------------------------------------- which debugging and restore steps remain

  predicate IsFrontStep(s: Step) {
    s.kind == Debugging || s.kind == Restore
  }

  lemma ReorderLeavesFront(self: Step, installed: Installed, sc: seq<Step>, kind: Kind, other: Kind)
    requires IsFront(kind, other)
    ensures Filter(IsKind(kind), Reorder(self, installed, sc)) == if self.kind == kind then [self] else Filter(IsKind(kind), sc)
  {
    hide Filter, Ensured, Without;
    var p := IsKind(kind);
    if self.kind == kind {
      NoKindWithout(sc, kind, kind);
      NoneToFilter(Without(sc, kind), kind);
      FilterOfFirst(p, self, Without(sc, kind));
    } else if self.kind == other {
      FilterWithout(p, sc, other);
      FilterOfFirst(p, self, Without(sc, other));
    } else if self.kind == PigScript {
      FilterEnsured(p, sc, self, PigInstall, false);
    } else if UsesHive(self) {
      FilterEnsured(p, sc, self, HiveInstall, false);
    }
  }

  // Of several debugging steps the last remains, and of several restore steps.
  lemma {:induction false} LastFrontStepRemains(sc: seq<Step>, installed: Installed, k: nat, kind: Kind, other: Kind, i: nat)
    requires IsFront(kind, other) && i < k <= |sc| && sc[i].kind == kind && forall j :: i < j < k ==> sc[j].kind != kind
    ensures Filter(IsKind(kind), Folded(sc, installed, k)) == [sc[i]]
    decreases k
  {
    hide Filter, Reorder;
    ReorderLeavesFront(sc[k - 1], installed, Folded(sc, installed, k - 1), kind, other);
    if i < k - 1 {
      LastFrontStepRemains(sc, installed, k - 1, kind, other, i);
    }
  }

  // The later one of the two is the very first step.
  lemma {:induction false} LastFrontStepIsFirst(sc: seq<Step>, installed: Installed, k: nat, i: nat)
    requires i < k <= |sc| && IsFrontStep(sc[i]) && forall j :: i < j < k ==> !IsFrontStep(sc[j])
    ensures Folded(sc, installed, k) != [] && Folded(sc, installed, k)[0] == sc[i]
    decreases k
  {
    if i < k - 1 {
      LastFrontStepIsFirst(sc, installed, k - 1, i);
      FirstStays(sc[k - 1], installed, Folded(sc, installed, k - 1));
    }
  }

  lemma FirstStays(self: Step, installed: Installed, sc: seq<Step>)
    requires sc != [] && IsFrontStep(sc[0]) && !IsFrontStep(self)
    ensures Reorder(self, installed, sc) != [] && Reorder(self, installed, sc)[0] == sc[0]
  {
  }
}
