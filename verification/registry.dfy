/** The process-wide unit registry of index.js (`get_dependency`, memoised on
    the unit name) and the operations that act on it as a whole: `stop`,
    which kills every registered unit, and the exit listener's cascade. */
module Registry {
  import opened Js
  import opened Failures
  import opened Dependency

  /** `get_dependency.cache`: name to unit. */
  type Units = map<string, Unit>

  /** Every entry is filed under its own name and satisfies the unit invariant. */
  predicate Consistent(reg: Units)
  {
    forall n :: n in reg ==> reg[n].name == n && Wf(reg[n])
  }

  /** `get_dependency(name, what)`: the unit already registered under
      `name`, ignoring the new declaration, or a fresh unit filed under it. */
  function GetDependency(reg: Units, name: string, decl: Decl): (r: (Units, Unit))
    ensures name in r.0 && r.0[name] == r.1
    ensures r.0.Keys == reg.Keys + {name}
    ensures name in reg ==> r.0 == reg && r.1 == reg[name]
    ensures name !in reg ==> r.1 == NewUnit(name, decl) && forall n :: n in reg ==> r.0[n] == reg[n]
    ensures Consistent(reg) ==> Consistent(r.0)
  {
    if name in reg then (reg, reg[name])
    else
      var u := NewUnit(name, decl);
      (reg[name := u], u)
  }

  /** Asking again for a name, with any declaration, returns the same unit and
      leaves the registry as it was. */
  lemma GetDependencyMemoised(reg: Units, name: string, d1: Decl, d2: Decl)
    ensures GetDependency(GetDependency(reg, name, d1).0, name, d2)
            == (GetDependency(reg, name, d1).0, GetDependency(reg, name, d1).1)
  {
  }

  /** The first declaration listed for `name`, if any. */
  function Lookup(decls: seq<(string, Decl)>, name: string): Option<Decl>
    decreases |decls|
  {
    if decls == [] then None
    else if decls[0].0 == name then Some(decls[0].1)
    else Lookup(decls[1..], name)
  }

  lemma {:induction false} LookupAppend(decls: seq<(string, Decl)>, d: (string, Decl), name: string)
    ensures Lookup(decls + [d], name)
            == if Lookup(decls, name).Some? then Lookup(decls, name)
               else if d.0 == name then Some(d.1) else None
    decreases |decls|
  {
    if decls != [] {
      assert (decls + [d])[1..] == decls[1..] + [d];
      LookupAppend(decls[1..], d, name);
    }
  }

  /** The registration loop of `get_ready`: `get_dependency` for each
      declared name in order. Units already registered keep their state and
      declaration; each new name gets a fresh unit with its first listed
      declaration. */
  method Declare(reg: Units, decls: seq<(string, Decl)>) returns (out: Units)
    ensures forall n :: n in out <==> n in reg || Lookup(decls, n).Some?
    ensures forall n :: n in reg ==> out[n] == reg[n]
    ensures forall n :: n in out && n !in reg ==> Lookup(decls, n).Some? && out[n] == NewUnit(n, Lookup(decls, n).value)
    ensures Consistent(reg) ==> Consistent(out)
  {
    out := reg;
    var i := 0;
    while i < |decls|
      invariant 0 <= i <= |decls|
      invariant forall n :: n in out <==> n in reg || Lookup(decls[..i], n).Some?
      invariant forall n :: n in reg ==> out[n] == reg[n]
      invariant forall n :: n in out && n !in reg ==> Lookup(decls[..i], n).Some? && out[n] == NewUnit(n, Lookup(decls[..i], n).value)
      invariant Consistent(reg) ==> Consistent(out)
    {
      forall n {
        LookupAppend(decls[..i], decls[i], n);
      }
      assert decls[..i + 1] == decls[..i] + [decls[i]];
      out := GetDependency(out, decls[i].0, decls[i].1).0;
      i := i + 1;
    }
    assert decls[..i] == decls;
  }

  /** `stop(reason)`: `kill` on every registered unit. Returns the new
      registry and the signal each unit's child was sent. */
  function Stop(reg: Units, reason: Reason): (r: (Units, map<string, string>))
    ensures r.0.Keys == reg.Keys
    ensures r.1.Keys <= reg.Keys
    // units without a live, not-yet-exited child are left alone and not signalled
    ensures forall n :: n in reg && !Killable(reg[n]) ==> r.0[n] == reg[n] && n !in r.1
    // every other unit is signalled with its declared signal and holds an error
    ensures forall n :: n in reg && Killable(reg[n]) ==>
              n in r.1 && r.1[n] == KillSignal(reg[n].decl)
              && r.0[n].error.Some? && r.0[n].child.Some? && !r.0[n].child.value.listening
    // a killed unit changes only in its error and its detached listener
    ensures forall n :: n in reg && Killable(reg[n]) ==>
              r.0[n] == reg[n].(error := r.0[n].error, child := Some(reg[n].child.value.(listening := false)))
    // an error already recorded is never overwritten; otherwise the kill error names the reason
    ensures forall n :: n in reg && reg[n].error.Some? ==> r.0[n].error == reg[n].error
    ensures forall n :: n in reg && Killable(reg[n]) && reg[n].error.None? ==>
              r.0[n].error == Some(Killed(reg[n].name, reason))
    // stop is kill applied to every unit independently
    ensures forall n :: n in reg ==> r.0[n] == Kill(reg[n], reason).0
    ensures forall n :: n in r.1 ==> Kill(reg[n], reason).1 == Some(r.1[n])
    ensures Consistent(reg) ==> Consistent(r.0)
  {
    (map n | n in reg :: Kill(reg[n], reason).0,
     map n | n in reg && Killable(reg[n]) :: KillSignal(reg[n].decl))
  }

  /** Stopping twice leaves the registry as the first stop left it; children
      that were signalled but have not exited yet are signalled again. */
  lemma StopTwice(reg: Units, a: Reason, b: Reason)
    ensures Stop(Stop(reg, a).0, b) == Stop(reg, a)
  {
    var (s1, sig1) := Stop(reg, a);
    var (s2, sig2) := Stop(s1, b);
    forall n | n in reg
      ensures s2[n] == s1[n]
      ensures Killable(s1[n]) == Killable(reg[n])
    {
      KillTwice(reg[n], a, b);
    }
    assert s2 == s1;
    assert sig2 == sig1;
  }

  /** A start request for a registered unit. */
  function StartUnit(reg: Units, name: string, test: bool): (r: (Units, Started))
    requires name in reg
    ensures r.0.Keys == reg.Keys
    ensures forall n :: n in reg && n != name ==> r.0[n] == reg[n]
    ensures (r.0[name], r.1) == Spawn(reg[name], test)
    ensures Consistent(reg) ==> Consistent(r.0)
  {
    var (u, started) := Spawn(reg[name], test);
    (reg[name := u], started)
  }

  /** However the registry was filled, a unit that has started once never
      creates a second child. */
  lemma StartTwiceSpawnsOnce(reg: Units, name: string, t1: bool, t2: bool)
    requires name in reg
    ensures !StartUnit(StartUnit(reg, name, t1).0, name, t2).1.CreatedChild()
  {
  }

  /** The exit of the named unit's child: the listener runs on that unit and,
      on an unexpected non-zero exit, calls `stop` with its message. The
      exited unit's own kill is then a no-op, since its handle is gone. */
  function ExitUnit(reg: Units, name: string, how: Termination): (r: (Units, map<string, string>))
    requires name in reg && reg[name].child.Some? && reg[name].child.value.hasHandle
    ensures r.0.Keys == reg.Keys
    ensures r.1.Keys <= reg.Keys
    ensures r.0[name] == ChildExited(reg[name], how).0
    ensures !UnexpectedExit(reg[name], how) ==>
              r.1 == map[] && forall n :: n in reg && n != name ==> r.0[n] == reg[n]
    ensures UnexpectedExit(reg[name], how) ==>
              r.0[name].error == Some(ExitedWithCode(reg[name].name, how.code)) && name !in r.1
              && forall n :: n in reg && n != name ==>
                   r.0[n] == Kill(reg[n], Text(Message(ExitedWithCode(reg[name].name, how.code)))).0
                   && (n in r.1 <==> Killable(reg[n]))
    // the cascade signals each sibling with its own declared signal
    ensures UnexpectedExit(reg[name], how) ==>
              forall n :: n in r.1 ==> n != name && r.1[n] == KillSignal(reg[n].decl)
    ensures Consistent(reg) ==> Consistent(r.0)
  {
    var (u, failure) := ChildExited(reg[name], how);
    var reg1 := reg[name := u];
    match failure
    case None => (reg1, map[])
    case Some(f) => Stop(reg1, Text(Message(f)))
  }

  /** The exit cascade: after an unexpected exit every other unit with a live
      child holds an error (a new kill error, or the one it already had) and
      has been signalled; units without one are untouched. */
  lemma ExitCascadeKillsSiblings(reg: Units, name: string, code: int)
    requires name in reg && reg[name].child.Some? && reg[name].child.value.hasHandle
    requires UnexpectedExit(reg[name], Code(code))
    ensures forall n :: n in reg && n != name && Killable(reg[n]) ==>
              ExitUnit(reg, name, Code(code)).0[n].error.Some?
              && n in ExitUnit(reg, name, Code(code)).1
    ensures forall n :: n in reg && n != name && !Killable(reg[n]) ==>
              ExitUnit(reg, name, Code(code)).0[n] == reg[n]
  {
  }
}
