/** `dapploader/preprocessors.py`: after `sanitized`, every contract of the
    namespace gets its `processed_code`: its code lines preceded by one piece
    of Serpent per dependency.  The macro preprocessor writes the
    dependency's signature and a `macro <alias>: <address>` line; the
    registry preprocessor writes a `def any():` block that looks each
    dependency up in a registry at `REG_ADDR`.  Both rewrite the namespace in
    place, contract by contract in key order, and stop at the first error. */
module DappPreprocessors {
  import opened Wrappers
  import opened Text
  import opened OrderedMaps
  import opened Namespaces

  /** The registry's address (a placeholder in the source). */
  const REG_ADDR: string := "0x0"

  /** Which preprocessor runs: macros, or registry lookups owned by `controller`. */
  datatype Strategy = Macro | Registry(controller: string)

  /** `'macro {}: {}'.format(var_name, dep_addr)`. */
  function MacroLine(alias: string, address: string): string {
    "macro " + alias + ": " + address
  }

  /** `lookup_fmt.format(var_name, dep_key)`, with `lookup_fmt` already
      formatted with `REG_ADDR` and the controller. */
  function LookupLine(controller: string, alias: string, name: string): string {
    "    " + alias + " = " + REG_ADDR + ".lookup(" + controller + ", \"" + name + "\")"
  }

  /** The lines that open the processed code before any dependency. */
  function Header(strategy: Strategy): seq<string> {
    if strategy.Registry? then ["def any():"] else []
  }

  /** The lines the first `n` dependencies (in key order) contribute, or the
      KeyError raised while reading them; `entries` is the namespace the
      macro preprocessor reads the dependencies' addresses and signatures from. */
  function DepLines(entries: map<string, ContractInfo>, deps: OrderedMap<string>, strategy: Strategy, n: nat): Result<seq<string>>
    requires n <= |deps.keys|
  {
    if n == 0 then Ok([])
    else
      match DepLines(entries, deps, strategy, n - 1)
      case Err(e) => Err(e)
      case Ok(lines) =>
        var alias := deps.keys[n - 1];
        if alias !in deps.entries then Err(KeyError(alias))
        else
          var name := deps.entries[alias];
          match strategy
          case Registry(controller) => Ok(lines + [LookupLine(controller, alias, name)])
          case Macro =>
            if name !in entries then Err(KeyError(name))
            else
              match entries[name].sanitized
              case None => Err(KeyError("signature"))
              case Some(s) => Ok(lines + [s.signature, MacroLine(alias, entries[name].address)])
  }

  /** The `processed_code` of a contract, or the error raised computing it
      (KeyError "dependencies" when it was never sanitized). */
  function ProcessedCode(entries: map<string, ContractInfo>, info: ContractInfo, strategy: Strategy): Result<string> {
    match info.sanitized
    case None => Err(KeyError("dependencies"))
    case Some(s) =>
      match DepLines(entries, s.dependencies, strategy, |s.dependencies.keys|)
      case Err(e) => Err(e)
      case Ok(lines) => Ok(Join("\n", Header(strategy) + lines + s.tempCode))
  }

  /** `b` differs from `a` at most in the `processed_code` of its entries. */
  ghost predicate OnlyCodeChanged(a: map<string, ContractInfo>, b: map<string, ContractInfo>) {
    && a.Keys == b.Keys
    && forall n :: n in a ==> b[n] == a[n].(processedCode := b[n].processedCode)
  }

  /** The entries after the first `k` contracts (in key order) have been
      processed, and whether an error stopped the run. */
  function RunUpTo(t: OrderedMap<ContractInfo>, strategy: Strategy, k: nat): (map<string, ContractInfo>, Outcome)
    requires t.Valid() && k <= |t.keys|
  {
    if k == 0 then (t.entries, Pass)
    else
      var (m, o) := RunUpTo(t, strategy, k - 1);
      if o.Fail? then (m, o)
      else
        var name := t.keys[k - 1];
        match ProcessedCode(t.entries, t.entries[name], strategy)
        case Err(e) => (m, Fail(e))
        case Ok(code) => (m[name := t.entries[name].(processedCode := Some(code))], Pass)
  }

  /** The entries after the whole preprocessing run, and its outcome. */
  function Rewritten(t: OrderedMap<ContractInfo>, strategy: Strategy): (map<string, ContractInfo>, Outcome)
    requires t.Valid()
  {
    RunUpTo(t, strategy, |t.keys|)
  }

  /** The preprocessor `preprocess(dapp_namespace, controller)` picks: macros
      without a controller, otherwise registry lookups owned by the
      controller, which is first replaced by its address when it names a
      contract of the namespace. */
  function ChooseStrategy(entries: map<string, ContractInfo>, controller: Option<string>): Strategy {
    match controller
    case None => Macro
    case Some(c) => Registry(if c in entries then entries[c].address else c)
  }

  /** Once reading a dependency has failed, the later ones change nothing. */
  lemma {:induction false} DepErrStays(entries: map<string, ContractInfo>, deps: OrderedMap<string>, strategy: Strategy, i: nat, n: nat)
    requires i <= n <= |deps.keys| && DepLines(entries, deps, strategy, i).Err?
    ensures DepLines(entries, deps, strategy, n) == DepLines(entries, deps, strategy, i)
    decreases n
  {
    if i < n {
      DepErrStays(entries, deps, strategy, i, n - 1);
    }
  }

  /** Once a contract has failed, the later ones change nothing. */
  lemma {:induction false} RunErrStays(t: OrderedMap<ContractInfo>, strategy: Strategy, i: nat, n: nat)
    requires t.Valid() && i <= n <= |t.keys| && RunUpTo(t, strategy, i).1.Fail?
    ensures RunUpTo(t, strategy, n) == RunUpTo(t, strategy, i)
    decreases n
  {
    if i < n {
      RunErrStays(t, strategy, i, n - 1);
      var (m, o) := RunUpTo(t, strategy, n - 1);
      assert o.Fail? && RunUpTo(t, strategy, n) == (m, o);
    }
  }

  /** The processed code does not depend on the `processed_code` already
      written into the namespace. */
  lemma {:induction false} DepLinesFrame(a: map<string, ContractInfo>, b: map<string, ContractInfo>, deps: OrderedMap<string>, strategy: Strategy, n: nat)
    requires n <= |deps.keys| && OnlyCodeChanged(a, b)
    ensures DepLines(a, deps, strategy, n) == DepLines(b, deps, strategy, n)
  {
    if n > 0 {
      DepLinesFrame(a, b, deps, strategy, n - 1);
    }
  }

  lemma ProcessedCodeFrame(a: map<string, ContractInfo>, b: map<string, ContractInfo>, info: ContractInfo, strategy: Strategy)
    requires OnlyCodeChanged(a, b)
    ensures ProcessedCode(a, info, strategy) == ProcessedCode(b, info, strategy)
  {
    if info.sanitized.Some? {
      var deps := info.sanitized.value.dependencies;
      DepLinesFrame(a, b, deps, strategy, |deps.keys|);
    }
  }

  /** A run changes only `processed_code`. */
  lemma {:induction false} RunFrame(t: OrderedMap<ContractInfo>, strategy: Strategy, k: nat)
    requires t.Valid() && k <= |t.keys|
    ensures OnlyCodeChanged(t.entries, RunUpTo(t, strategy, k).0)
  {
    if k > 0 {
      RunFrame(t, strategy, k - 1);
      var (m0, o0) := RunUpTo(t, strategy, k - 1);
      var name := t.keys[k - 1];
      var code := ProcessedCode(t.entries, t.entries[name], strategy);
      if o0.Pass? && code.Ok? {
        assert name in t.entries;
        UpdateCodeKeeps(t.entries, m0, name, Some(code.value));
      }
    }
  }

  /** Writing one contract's processed code keeps the entries differing from
      the originals only in that field. */
  lemma UpdateCodeKeeps(a: map<string, ContractInfo>, m: map<string, ContractInfo>, name: string, code: Option<string>)
    requires OnlyCodeChanged(a, m) && name in m
    ensures OnlyCodeChanged(a, m[name := m[name].(processedCode := code)])
  {
  }

  /** A run leaves the contracts it has not reached as they were. */
  lemma {:induction false} RunUntouched(t: OrderedMap<ContractInfo>, strategy: Strategy, k: nat)
    requires t.Valid() && k <= |t.keys|
    ensures forall j :: k <= j < |t.keys| ==>
      t.keys[j] in RunUpTo(t, strategy, k).0 && RunUpTo(t, strategy, k).0[t.keys[j]] == t.entries[t.keys[j]]
  {
    if k > 0 {
      RunUntouched(t, strategy, k - 1);
      var name := t.keys[k - 1];
      forall j | k <= j < |t.keys|
        ensures t.keys[j] != name
      {
        assert k - 1 < j;
      }
    }
  }

  /** A run that got through the first `k` contracts has written the
      processed code of each of them. */
  lemma {:induction false} RunDone(t: OrderedMap<ContractInfo>, strategy: Strategy, k: nat)
    requires t.Valid() && k <= |t.keys|
    requires RunUpTo(t, strategy, k).1.Pass?
    ensures forall i :: 0 <= i < k ==>
      && ProcessedCode(t.entries, t.entries[t.keys[i]], strategy).Ok?
      && t.keys[i] in RunUpTo(t, strategy, k).0
      && RunUpTo(t, strategy, k).0[t.keys[i]].processedCode == Some(ProcessedCode(t.entries, t.entries[t.keys[i]], strategy).value)
  {
    if k > 0 {
      RunDone(t, strategy, k - 1);
      RunFrame(t, strategy, k - 1);
      var name := t.keys[k - 1];
      forall i | 0 <= i < k - 1
        ensures t.keys[i] != name
      {
        assert i < k - 1;
      }
    }
  }

  /** The run stopped at the `j`-th contract, whose code cannot be produced,
      with its error: the contracts before it carry their processed code, it
      and the ones after it are untouched. */
  ghost predicate FailedAt(t: OrderedMap<ContractInfo>, strategy: Strategy, m: map<string, ContractInfo>, o: Outcome, j: nat)
    requires t.Valid() && j < |t.keys|
  {
    && o.Fail?
    && ProcessedCode(t.entries, t.entries[t.keys[j]], strategy) == Err(o.error)
    && (forall i :: 0 <= i < j ==>
          && ProcessedCode(t.entries, t.entries[t.keys[i]], strategy).Ok?
          && t.keys[i] in m
          && m[t.keys[i]].processedCode == Some(ProcessedCode(t.entries, t.entries[t.keys[i]], strategy).value))
    && (forall i :: j <= i < |t.keys| ==> t.keys[i] in m && m[t.keys[i]] == t.entries[t.keys[i]])
  }

  /** A run that fails stops at the first contract whose code cannot be
      produced, with that contract's error. */
  lemma {:induction false} RunFails(t: OrderedMap<ContractInfo>, strategy: Strategy, k: nat)
    requires t.Valid() && k <= |t.keys|
    requires RunUpTo(t, strategy, k).1.Fail?
    ensures exists j :: 0 <= j < k && FailedAt(t, strategy, RunUpTo(t, strategy, k).0, RunUpTo(t, strategy, k).1, j)
  {
    var (m, o) := RunUpTo(t, strategy, k);
    var (m0, o0) := RunUpTo(t, strategy, k - 1);
    if o0.Fail? {
      RunFails(t, strategy, k - 1);
      var j :| 0 <= j < k - 1 && FailedAt(t, strategy, m0, o0, j);
      assert m == m0 && o == o0;
      assert FailedAt(t, strategy, m, o, j);
    } else {
      RunDone(t, strategy, k - 1);
      RunUntouched(t, strategy, k - 1);
      assert m == m0 && ProcessedCode(t.entries, t.entries[t.keys[k - 1]], strategy) == Err(o.error);
      assert FailedAt(t, strategy, m, o, k - 1);
    }
  }

  /** One step of the run: the next contract is still as it was, and its
      processed code computed on the partly rewritten namespace is the one
      computed on the original. */
  lemma RunStep(t: OrderedMap<ContractInfo>, strategy: Strategy, i: nat)
    requires t.Valid() && i < |t.keys| && RunUpTo(t, strategy, i).1.Pass?
    ensures var m := RunUpTo(t, strategy, i).0;
      && t.keys[i] in m && m[t.keys[i]] == t.entries[t.keys[i]]
      && ProcessedCode(m, m[t.keys[i]], strategy) == ProcessedCode(t.entries, t.entries[t.keys[i]], strategy)
  {
    RunFrame(t, strategy, i);
    RunUntouched(t, strategy, i);
    var m := RunUpTo(t, strategy, i).0;
    ProcessedCodeFrame(t.entries, m, t.entries[t.keys[i]], strategy);
  }

  /** The step in the terms the in-place loop sees: the entries `m` so far
      and the code computed from them for the next contract. */
  lemma RunNext(t: OrderedMap<ContractInfo>, strategy: Strategy, i: nat, m: map<string, ContractInfo>)
    requires t.Valid() && i < |t.keys| && RunUpTo(t, strategy, i) == (m, Pass)
    ensures t.keys[i] in m && m.Keys == t.entries.Keys
    ensures var code := ProcessedCode(m, m[t.keys[i]], strategy);
      && (code.Err? ==> Rewritten(t, strategy) == (m, Fail(code.error)))
      && (code.Ok? ==> RunUpTo(t, strategy, i + 1) == (m[t.keys[i] := m[t.keys[i]].(processedCode := Some(code.value))], Pass))
  {
    RunStep(t, strategy, i);
    RunFrame(t, strategy, i);
    if ProcessedCode(m, m[t.keys[i]], strategy).Err? {
      RunErrStays(t, strategy, i + 1, |t.keys|);
    }
  }

  /** Preprocessing succeeds exactly when every contract's code can be
      produced, and then every contract of the namespace carries it. */
  lemma RewrittenPasses(t: OrderedMap<ContractInfo>, strategy: Strategy)
    requires t.Valid()
    ensures var (m, o) := Rewritten(t, strategy);
      && (o.Pass? <==> forall name :: name in t.entries ==> ProcessedCode(t.entries, t.entries[name], strategy).Ok?)
      && (o.Pass? ==> forall name :: name in t.entries ==>
            name in m && m[name].processedCode == Some(ProcessedCode(t.entries, t.entries[name], strategy).value))
  {
    var (m, o) := Rewritten(t, strategy);
    if o.Fail? {
      RunFails(t, strategy, |t.keys|);
    } else {
      RunDone(t, strategy, |t.keys|);
      forall name | name in t.entries
        ensures ProcessedCode(t.entries, t.entries[name], strategy).Ok?
        ensures name in m && m[name].processedCode == Some(ProcessedCode(t.entries, t.entries[name], strategy).value)
      {
        assert name in t.keys;
        var i :| 0 <= i < |t.keys| && t.keys[i] == name;
      }
    }
  }

  /** Dependency `i` can be read for the macro preprocessor: its alias is
      mapped, and it names a sanitized contract of the namespace. */
  predicate Resolves(entries: map<string, ContractInfo>, deps: OrderedMap<string>, i: nat)
    requires i < |deps.keys|
  {
    var alias := deps.keys[i];
    alias in deps.entries && deps.entries[alias] in entries && entries[deps.entries[alias]].sanitized.Some?
  }

  /** The macro lines: for each dependency in order, the dependency's
      signature and then `macro <alias>: <its address>`; they can be produced
      exactly when every dependency resolves. */
  lemma {:induction false} MacroDepLines(entries: map<string, ContractInfo>, deps: OrderedMap<string>, n: nat)
    requires n <= |deps.keys|
    ensures DepLines(entries, deps, Macro, n).Ok? <==> forall i :: 0 <= i < n ==> Resolves(entries, deps, i)
    ensures DepLines(entries, deps, Macro, n).Ok? ==>
      var lines := DepLines(entries, deps, Macro, n).value;
      && |lines| == 2 * n
      && forall i :: 0 <= i < n ==>
           Resolves(entries, deps, i) &&
           var target := entries[deps.entries[deps.keys[i]]];
           lines[2 * i] == target.sanitized.value.signature && lines[2 * i + 1] == MacroLine(deps.keys[i], target.address)
  {
    if n > 0 {
      MacroDepLines(entries, deps, n - 1);
      var prev := DepLines(entries, deps, Macro, n - 1);
      if prev.Ok? && Resolves(entries, deps, n - 1) {
        var lines := DepLines(entries, deps, Macro, n).value;
        assert lines[..2 * (n - 1)] == prev.value;
      }
    }
  }

  /** A dependency that is not a contract of the namespace makes the macro
      preprocessor fail with a KeyError naming it, unless an earlier
      dependency failed first. */
  lemma MissingDependencyFails(entries: map<string, ContractInfo>, info: ContractInfo, i: nat)
    requires info.sanitized.Some?
    requires var deps := info.sanitized.value.dependencies;
      && i < |deps.keys| && deps.keys[i] in deps.entries && deps.entries[deps.keys[i]] !in entries
      && forall j :: 0 <= j < i ==> Resolves(entries, deps, j)
    ensures ProcessedCode(entries, info, Macro) == Err(KeyError(info.sanitized.value.dependencies.entries[info.sanitized.value.dependencies.keys[i]]))
  {
    var deps := info.sanitized.value.dependencies;
    MacroDepLines(entries, deps, i);
    DepErrStays(entries, deps, Macro, i + 1, |deps.keys|);
  }

  /** The registry lines: one lookup per dependency, in order, naming the
      alias, the controller and the dependency's contract name; they never
      read the namespace, so they fail only on an unmapped alias. */
  lemma {:induction false} RegistryDepLines(entries: map<string, ContractInfo>, deps: OrderedMap<string>, controller: string, n: nat)
    requires n <= |deps.keys|
    ensures DepLines(entries, deps, Registry(controller), n).Ok? <==> forall i :: 0 <= i < n ==> deps.keys[i] in deps.entries
    ensures DepLines(entries, deps, Registry(controller), n).Ok? ==>
      var lines := DepLines(entries, deps, Registry(controller), n).value;
      && |lines| == n
      && forall i :: 0 <= i < n ==> lines[i] == LookupLine(controller, deps.keys[i], deps.entries[deps.keys[i]])
  {
    if n > 0 {
      RegistryDepLines(entries, deps, controller, n - 1);
    }
  }

  /** A sanitized contract always gets registry code: `def any():`, a lookup
      per dependency, then its code lines. */
  lemma RegistryCode(entries: map<string, ContractInfo>, info: ContractInfo, controller: string)
    requires info.sanitized.Some? && info.sanitized.value.dependencies.Valid()
    ensures var s := info.sanitized.value;
      var deps := s.dependencies;
      exists lookups: seq<string> ::
        && |lookups| == |deps.keys|
        && (forall i :: 0 <= i < |deps.keys| ==> lookups[i] == LookupLine(controller, deps.keys[i], deps.entries[deps.keys[i]]))
        && ProcessedCode(entries, info, Registry(controller)) == Ok(Join("\n", ["def any():"] + lookups + s.tempCode))
  {
    var deps := info.sanitized.value.dependencies;
    RegistryDepLines(entries, deps, controller, |deps.keys|);
  }

  /** Without dependencies, the macro preprocessor's code is the code lines
      joined, and the registry's is that behind `def any():`. */
  lemma NoDependencies(entries: map<string, ContractInfo>, info: ContractInfo, strategy: Strategy)
    requires info.sanitized.Some? && info.sanitized.value.dependencies.keys == []
    ensures ProcessedCode(entries, info, strategy) == Ok(Join("\n", Header(strategy) + info.sanitized.value.tempCode))
  {
    assert Header(strategy) + [] == Header(strategy);
  }

  /** Naming the controller contract is the same as giving its address
      (unless that address is itself a contract name). */
  lemma ControllerByName(entries: map<string, ContractInfo>, name: string)
    requires name in entries && entries[name].address !in entries
    ensures ChooseStrategy(entries, Some(name)) == ChooseStrategy(entries, Some(entries[name].address))
    ensures ChooseStrategy(entries, Some(name)).Registry?
  {
  }

  /** The code of one contract, computed as the two preprocessors do: a loop
      over its dependencies, then its code lines. */
  method BuildCode(entries: map<string, ContractInfo>, info: ContractInfo, strategy: Strategy) returns (r: Result<string>)
    ensures r == ProcessedCode(entries, info, strategy)
  {
    if info.sanitized.None? {
      return Err(KeyError("dependencies"));
    }
    var deps := info.sanitized.value.dependencies;
    var code := Header(strategy);
    var i := 0;
    while i < |deps.keys|
      invariant 0 <= i <= |deps.keys|
      invariant DepLines(entries, deps, strategy, i).Ok?
      invariant code == Header(strategy) + DepLines(entries, deps, strategy, i).value
    {
      var varName := deps.keys[i];
      if varName !in deps.entries {
        DepErrStays(entries, deps, strategy, i + 1, |deps.keys|);
        return Err(KeyError(varName));
      }
      var depName := deps.entries[varName];
      match strategy {
        case Registry(controller) =>
          code := code + [LookupLine(controller, varName, depName)];
        case Macro =>
          if depName !in entries {
            DepErrStays(entries, deps, strategy, i + 1, |deps.keys|);
            return Err(KeyError(depName));
          }
          var depAddr := entries[depName].address;
          if entries[depName].sanitized.None? {
            DepErrStays(entries, deps, strategy, i + 1, |deps.keys|);
            return Err(KeyError("signature"));
          }
          code := code + [entries[depName].sanitized.value.signature, MacroLine(varName, depAddr)];
      }
      i := i + 1;
    }
    code := code + info.sanitized.value.tempCode;
    r := Ok(Join("\n", code));
  }

  /** Writes every contract's `processed_code` in place, in key order,
      stopping at the first error. */
  method Rewrite(ns: Namespace, strategy: Strategy) returns (o: Outcome)
    requires ns.Valid()
    modifies ns
    ensures ns.Valid() && ns.keys == old(ns.keys)
    ensures (ns.entries, o) == Rewritten(old(ns.View()), strategy)
  {
    ghost var t := ns.View();
    var keys, entries := ns.keys, ns.entries;
    var i := 0;
    while i < |keys|
      invariant 0 <= i <= |keys| && keys == t.keys && ns.keys == keys && ns.entries == entries
      invariant RunUpTo(t, strategy, i) == (entries, Pass)
    {
      RunNext(t, strategy, i, entries);
      var name := keys[i];
      var info := entries[name];
      var code := BuildCode(entries, info, strategy);
      if code.Err? {
        SameKeysValid(t, entries);
        return Fail(code.error);
      }
      entries := entries[name := info.(processedCode := Some(code.value))];
      ns.entries := entries;
      i := i + 1;
    }
    RunFrame(t, strategy, i);
    SameKeysValid(t, entries);
    o := Pass;
  }

  /** `macro_preprocessor(dapp_namespace)`. */
  method MacroPreprocessor(ns: Namespace) returns (o: Outcome)
    requires ns.Valid()
    modifies ns
    ensures ns.Valid() && ns.keys == old(ns.keys)
    ensures (ns.entries, o) == Rewritten(old(ns.View()), Macro)
  {
    o := Rewrite(ns, Macro);
  }

  /** `registry_preprocessor(dapp_namespace, controller)`. */
  method RegistryPreprocessor(ns: Namespace, controller: string) returns (o: Outcome)
    requires ns.Valid()
    modifies ns
    ensures ns.Valid() && ns.keys == old(ns.keys)
    ensures (ns.entries, o) == Rewritten(old(ns.View()), Registry(controller))
  {
    o := Rewrite(ns, Registry(controller));
  }

  /** `preprocess(dapp_namespace, controller)`. */
  method Preprocess(ns: Namespace, controller: Option<string>) returns (o: Outcome)
    requires ns.Valid()
    modifies ns
    ensures ns.Valid() && ns.keys == old(ns.keys)
    ensures (ns.entries, o) == Rewritten(old(ns.View()), ChooseStrategy(old(ns.entries), controller))
  {
    if controller.None? {
      o := MacroPreprocessor(ns);
      return;
    }
    var c := controller.value;
    if c in ns.entries {
      c := ns.entries[c].address;
    }
    o := RegistryPreprocessor(ns, c);
  }
}
