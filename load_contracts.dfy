/** `load_contracts/load_contracts.py`: the selective-redeploy filter
    `optimize_deps`, and the two decision rules of `broadcast_code` that do
    not talk to the network: how a failed send is classified, and when the
    receipt-poll loop accepts a deployed contract.

    The globals the script reads (`CONTRACT`, `TRIES`) are parameters here,
    and so are the JSON-RPC replies. */
module LoadContracts {
  import opened Wrappers
  import opened Text

  // ---------------------------------------------------------------------
  // optimize_deps
  // ---------------------------------------------------------------------

  /** `s.index(x)`: the first position of `x` in `s`, or None where Python
      raises ValueError. */
  function IndexOf(s: seq<string>, x: string): (r: Option<nat>)
    ensures r.Some? ==> r.value < |s| && s[r.value] == x && x !in s[..r.value]
    ensures r.None? <==> x !in s
  {
    if s == [] then None
    else if s[0] == x then Some(0)
    else
      match IndexOf(s[1..], x)
      case None => None
      case Some(i) => assert s[1..][..i] == s[1..i + 1]; Some(i + 1)
  }

  /** Some name already kept is among `imports`. */
  predicate ImportsAny(imports: seq<string>, kept: seq<string>) {
    exists j :: 0 <= j < |kept| && kept[j] in imports
  }

  /** The list `new_deps` after the outer loop has visited `later`, starting
      from `kept0`: a node is appended when it imports something already
      kept; a node without an entry in `contract_nodes` raises KeyError. */
  function Select(nodes: map<string, seq<string>>, kept0: seq<string>, later: seq<string>): Result<seq<string>>
  {
    if later == [] then Ok(kept0)
    else
      match Select(nodes, kept0, later[..|later| - 1])
      case Err(e) => Err(e)
      case Ok(kept) =>
        var node := later[|later| - 1];
        if node !in nodes then Err(KeyError(node))
        else if ImportsAny(nodes[node], kept) then Ok(kept + [node])
        else Ok(kept)
  }

  /** What `optimize_deps(deps, contract_nodes)` returns for the selected
      contract, or the error it raises. */
  function OptimizedDeps(deps: seq<string>, nodes: map<string, seq<string>>, contract: string): Result<seq<string>> {
    match IndexOf(deps, contract)
    case None => Err(ValueError(contract))
    case Some(i) => Select(nodes, [contract], deps[i + 1..])
  }

  /** Once a prefix of the nodes has failed, the whole does, with the same error. */
  lemma {:induction false} SelectErrStays(nodes: map<string, seq<string>>, kept0: seq<string>, later: seq<string>, k: nat)
    requires k <= |later| && Select(nodes, kept0, later[..k]).Err?
    ensures Select(nodes, kept0, later) == Select(nodes, kept0, later[..k])
    decreases |later| - k
  {
    if k < |later| {
      assert later[..k + 1][..k] == later[..k];
      SelectErrStays(nodes, kept0, later, k + 1);
    } else {
      assert later[..k] == later;
    }
  }

  /** `optimize_deps(deps, contract_nodes)` with the selected contract passed
      in (the script reads the global `CONTRACT`). */
  method OptimizeDeps(deps: seq<string>, contractNodes: map<string, seq<string>>, contract: string) returns (r: Result<seq<string>>)
    ensures r == OptimizedDeps(deps, contractNodes, contract)
  {
    var start := IndexOf(deps, contract);
    if start.None? {
      return Err(ValueError(contract));
    }
    var from := start.value + 1;
    var newDeps := [contract];
    var i := from;
    while i < |deps|
      invariant from <= i <= |deps|
      invariant |newDeps| >= 1
      invariant Select(contractNodes, [contract], deps[from..i]) == Ok(newDeps)
    {
      var node := deps[i];
      ghost var kept := newDeps;
      assert deps[from..i + 1][..i - from] == deps[from..i];
      var j := 0;
      while j < |newDeps|
        invariant 0 <= j <= |newDeps| && newDeps == kept
        invariant j > 0 ==> node in contractNodes && forall m :: 0 <= m < j ==> kept[m] !in contractNodes[node]
      {
        if node !in contractNodes {
          assert deps[from..][..i + 1 - from] == deps[from..i + 1];
          SelectErrStays(contractNodes, [contract], deps[from..], i + 1 - from);
          return Err(KeyError(node));
        }
        if newDeps[j] in contractNodes[node] {
          newDeps := newDeps + [node];
          break;
        }
        j := j + 1;
      }
      i := i + 1;
    }
    assert deps[from..i] == deps[from..];
    r := Ok(newDeps);
  }

  /** `b` keeps some of the elements of `a`, in their order. */
  predicate IsSubsequence(a: seq<string>, b: seq<string>)
    decreases |b|
  {
    if a == [] then true
    else if b == [] then false
    else (a[|a| - 1] == b[|b| - 1] && IsSubsequence(a[..|a| - 1], b[..|b| - 1])) || IsSubsequence(a, b[..|b| - 1])
  }

  /** Every element of a subsequence is an element of the whole. */
  lemma {:induction false} SubsequenceMembers(a: seq<string>, b: seq<string>)
    requires IsSubsequence(a, b)
    ensures forall x :: x in a ==> x in b
    decreases |b|
  {
    if a != [] {
      var n := |b| - 1;
      if a[|a| - 1] == b[n] && IsSubsequence(a[..|a| - 1], b[..n]) {
        SubsequenceMembers(a[..|a| - 1], b[..n]);
        assert a == a[..|a| - 1] + [a[|a| - 1]];
      } else {
        SubsequenceMembers(a, b[..n]);
      }
      assert b == b[..n] + [b[n]];
    }
  }

  /** The result starts with `kept0`; what follows is drawn from `later`,
      in order, each position at most once. */
  lemma {:induction false} SelectShape(nodes: map<string, seq<string>>, kept0: seq<string>, later: seq<string>)
    requires Select(nodes, kept0, later).Ok?
    ensures var kept := Select(nodes, kept0, later).value;
      |kept0| <= |kept| && kept[..|kept0|] == kept0 && IsSubsequence(kept[|kept0|..], later)
  {
    if later != [] {
      var n := |later| - 1;
      SelectShape(nodes, kept0, later[..n]);
      var prev := Select(nodes, kept0, later[..n]).value;
      var kept := Select(nodes, kept0, later).value;
      if kept == prev + [later[n]] {
        assert kept[|kept0|..][..|kept[|kept0|..]| - 1] == prev[|kept0|..];
        assert later[..n] == later[..|later| - 1];
      }
    }
  }

  /** The list only grows: the result after a prefix of the nodes is a
      prefix of the final result. */
  lemma {:induction false} SelectPrefix(nodes: map<string, seq<string>>, kept0: seq<string>, later: seq<string>, k: nat)
    requires k <= |later| && Select(nodes, kept0, later).Ok?
    ensures Select(nodes, kept0, later[..k]).Ok?
    ensures Select(nodes, kept0, later[..k]).value <= Select(nodes, kept0, later).value
    decreases |later| - k
  {
    if k < |later| {
      var n := |later| - 1;
      if Select(nodes, kept0, later[..k]).Err? {
        SelectErrStays(nodes, kept0, later, k);
      }
      assert later[..n][..k] == later[..k];
      SelectPrefix(nodes, kept0, later[..n], k);
    } else {
      assert later[..k] == later;
    }
  }

  /** `optimize_deps` fails exactly when the selected contract is not in
      `deps` (ValueError) or some later node has no entry in `contract_nodes`
      (KeyError naming the first such node). */
  lemma {:induction false} SelectFails(nodes: map<string, seq<string>>, kept0: seq<string>, later: seq<string>)
    ensures Select(nodes, kept0, later).Ok? <==> forall k :: 0 <= k < |later| ==> later[k] in nodes
    ensures Select(nodes, kept0, later).Err? ==>
      exists k :: (0 <= k < |later| && later[k] !in nodes && Select(nodes, kept0, later).error == KeyError(later[k]) &&
        forall m :: 0 <= m < k ==> later[m] in nodes)
  {
    if later != [] {
      var n := |later| - 1;
      SelectFails(nodes, kept0, later[..n]);
      assert forall k :: 0 <= k < n ==> later[..n][k] == later[k];
    }
  }

  /** The errors of `optimize_deps`. */
  lemma OptimizedDepsFails(deps: seq<string>, nodes: map<string, seq<string>>, contract: string)
    ensures contract !in deps ==> OptimizedDeps(deps, nodes, contract) == Err(ValueError(contract))
    ensures contract in deps ==>
      var i := IndexOf(deps, contract).value;
      && (OptimizedDeps(deps, nodes, contract).Ok? <==> forall p :: i < p < |deps| ==> deps[p] in nodes)
      && (OptimizedDeps(deps, nodes, contract).Err? ==>
            exists p :: (i < p < |deps| && deps[p] !in nodes && OptimizedDeps(deps, nodes, contract).error == KeyError(deps[p])))
  {
    if contract in deps {
      var i := IndexOf(deps, contract).value;
      var later := deps[i + 1..];
      SelectFails(nodes, [contract], later);
      assert forall p :: i < p < |deps| ==> deps[p] == later[p - i - 1];
      if OptimizedDeps(deps, nodes, contract).Err? {
        var k :| 0 <= k < |later| && later[k] !in nodes && Select(nodes, [contract], later).error == KeyError(later[k]);
        assert deps[k + i + 1] == later[k];
      }
    }
  }

  /** The result starts with the selected contract; every later element comes
      from `deps` strictly after the contract's first position, in `deps`
      order, so nothing before the contract is ever included. */
  lemma OptimizedShape(deps: seq<string>, nodes: map<string, seq<string>>, contract: string)
    requires OptimizedDeps(deps, nodes, contract).Ok?
    ensures contract in deps
    ensures var r := OptimizedDeps(deps, nodes, contract).value;
      && |r| >= 1 && r[0] == contract
      && IsSubsequence(r[1..], deps[IndexOf(deps, contract).value + 1..])
  {
    var i := IndexOf(deps, contract).value;
    var later := deps[i + 1..];
    SelectShape(nodes, [contract], later);
    var r := Select(nodes, [contract], later).value;
    var head := [contract];
    assert |head| == 1 && r[..|head|] == head;
    assert r[0] == head[0];
    assert OptimizedDeps(deps, nodes, contract).value == r;
  }

  /** `c` is a chain of imports: each name has an entry, which imports the next. */
  ghost predicate IsChain(nodes: map<string, seq<string>>, c: seq<string>) {
    forall i :: 0 <= i < |c| - 1 ==> c[i] in nodes && c[i + 1] in nodes[c[i]]
  }

  /** `a` imports `b`, directly or through other contracts. */
  ghost predicate DependsOn(nodes: map<string, seq<string>>, a: string, b: string) {
    exists c :: |c| >= 2 && c[0] == a && c[|c| - 1] == b && IsChain(nodes, c)
  }

  /** `deps` is a compile order for `nodes`: it lists exactly the contracts
      that have an entry, each after every contract it imports. */
  ghost predicate CompileOrder(deps: seq<string>, nodes: map<string, seq<string>>) {
    && (forall i :: 0 <= i < |deps| ==> deps[i] in nodes)
    && (forall n :: n in nodes ==> n in deps)
    && forall i, j :: 0 <= i < |deps| && 0 <= j < |deps| && deps[i] in nodes && deps[j] in nodes[deps[i]] ==> j < i
  }

  /** One more import in front of a chain. */
  lemma ChainCons(nodes: map<string, seq<string>>, a: string, c: seq<string>)
    requires IsChain(nodes, c) && |c| >= 1 && a in nodes && c[0] in nodes[a]
    ensures IsChain(nodes, [a] + c)
  {
    var d := [a] + c;
    forall i | 0 <= i < |d| - 1
      ensures d[i] in nodes && d[i + 1] in nodes[d[i]]
    {
      if i > 0 {
        assert d[i] == c[i - 1] && d[i + 1] == c[i];
      }
    }
  }

  /** Every kept name after `kept0`'s first is the first or depends on it. */
  lemma {:induction false} KeptDepend(nodes: map<string, seq<string>>, contract: string, later: seq<string>)
    requires Select(nodes, [contract], later).Ok?
    ensures forall x :: x in Select(nodes, [contract], later).value ==> x == contract || DependsOn(nodes, x, contract)
  {
    if later != [] {
      var n := |later| - 1;
      KeptDepend(nodes, contract, later[..n]);
      var prev := Select(nodes, [contract], later[..n]).value;
      var node := later[n];
      if ImportsAny(nodes[node], prev) {
        var j :| 0 <= j < |prev| && prev[j] in nodes[node];
        assert prev[j] in prev;
        if prev[j] == contract {
          assert IsChain(nodes, [node, contract]);
          assert DependsOn(nodes, node, contract);
        } else {
          var c :| |c| >= 2 && c[0] == prev[j] && c[|c| - 1] == contract && IsChain(nodes, c);
          ChainCons(nodes, node, c);
          assert ([node] + c)[|[node] + c| - 1] == contract;
          assert DependsOn(nodes, node, contract);
        }
      }
    }
  }

  /** In a compile order, an import chain only goes to earlier positions. */
  lemma {:induction false} ChainGoesBack(deps: seq<string>, nodes: map<string, seq<string>>, c: seq<string>, q: nat, t: nat)
    requires CompileOrder(deps, nodes) && q < |deps| && t < |deps|
    requires |c| >= 2 && IsChain(nodes, c) && c[0] == deps[q] && c[|c| - 1] == deps[t]
    ensures t < q
    decreases |c|
  {
    assert c[1] in nodes[deps[q]];
    if |c| > 2 {
      assert c[1] in nodes;
      var q' :| 0 <= q' < |deps| && deps[q'] == c[1];
      var rest := c[1..];
      assert IsChain(nodes, rest) by {
        forall i | 0 <= i < |rest| - 1
          ensures rest[i] in nodes && rest[i + 1] in nodes[rest[i]]
        {
          assert rest[i] == c[i + 1] && rest[i + 1] == c[i + 2];
        }
      }
      ChainGoesBack(deps, nodes, rest, q', t);
    }
  }

  /** In a compile order every contract has an entry, so no slice of the
      order makes the filter raise KeyError. */
  lemma OrderHasEntries(deps: seq<string>, nodes: map<string, seq<string>>, kept0: seq<string>, lo: nat, hi: nat)
    requires CompileOrder(deps, nodes) && lo <= hi <= |deps|
    ensures Select(nodes, kept0, deps[lo..hi]).Ok?
  {
    var s := deps[lo..hi];
    forall k | 0 <= k < |s|
      ensures s[k] in nodes
    {
      assert s[k] == deps[lo + k];
      assert deps[lo + k] in deps;
    }
    SelectFails(nodes, kept0, s);
  }

  /** The outer loop appends a node that imports something already kept. */
  lemma SelectAppends(nodes: map<string, seq<string>>, kept0: seq<string>, later: seq<string>, k: nat)
    requires k < |later| && Select(nodes, kept0, later[..k]).Ok? && later[k] in nodes
    requires ImportsAny(nodes[later[k]], Select(nodes, kept0, later[..k]).value)
    ensures Select(nodes, kept0, later[..k + 1]) == Ok(Select(nodes, kept0, later[..k]).value + [later[k]])
  {
    assert later[..k + 1][..k] == later[..k];
  }

  /** The import chain `c` without its first contract. */
  lemma ChainTail(nodes: map<string, seq<string>>, c: seq<string>)
    requires |c| >= 2 && IsChain(nodes, c)
    ensures IsChain(nodes, c[1..])
  {
    var rest := c[1..];
    forall i | 0 <= i < |rest| - 1
      ensures rest[i] in nodes && rest[i + 1] in nodes[rest[i]]
    {
      assert rest[i] == c[i + 1] && rest[i + 1] == c[i + 2];
    }
  }

  /** The second contract of an import chain from `deps[p]` to the selected
      contract is the selected contract itself or a contract between the two
      that depends on it. */
  lemma NextInChain(deps: seq<string>, nodes: map<string, seq<string>>, contract: string, idx: nat, p: nat) returns (q: nat)
    requires CompileOrder(deps, nodes) && idx < p < |deps| && deps[idx] == contract
    requires DependsOn(nodes, deps[p], contract)
    ensures deps[p] in nodes
    ensures contract in nodes[deps[p]] || (idx < q < p && deps[q] in nodes[deps[p]] && DependsOn(nodes, deps[q], contract))
  {
    var c :| |c| >= 2 && c[0] == deps[p] && c[|c| - 1] == contract && IsChain(nodes, c);
    assert deps[p] in nodes && c[1] in nodes[deps[p]];
    q := 0;
    if c[1] != contract {
      assert c[1] in nodes;
      q :| 0 <= q < |deps| && deps[q] == c[1];
      ChainTail(nodes, c);
      ChainGoesBack(deps, nodes, c[1..], q, idx);
      assert DependsOn(nodes, deps[q], contract);
    }
  }

  /** What a prefix holds, the whole holds. */
  lemma PrefixMember(a: seq<string>, b: seq<string>, x: string)
    requires a <= b && x in a
    ensures x in b
  {
    var m :| 0 <= m < |a| && a[m] == x;
    assert b[m] == x;
  }

  /** Once kept, a name stays in the list. */
  lemma KeptStays(nodes: map<string, seq<string>>, kept0: seq<string>, later: seq<string>, k: nat, x: string)
    requires k <= |later| && Select(nodes, kept0, later).Ok?
    requires Select(nodes, kept0, later[..k]).Ok? && x in Select(nodes, kept0, later[..k]).value
    ensures x in Select(nodes, kept0, later).value
  {
    SelectPrefix(nodes, kept0, later, k);
    PrefixMember(Select(nodes, kept0, later[..k]).value, Select(nodes, kept0, later).value, x);
  }

  /** The selected contract stays first in the list. */
  lemma SelectKeepsFirst(nodes: map<string, seq<string>>, contract: string, later: seq<string>)
    requires Select(nodes, [contract], later).Ok?
    ensures |Select(nodes, [contract], later).value| >= 1 && Select(nodes, [contract], later).value[0] == contract
  {
    SelectShape(nodes, [contract], later);
    var r := Select(nodes, [contract], later).value;
    var head := [contract];
    assert |head| == 1 && r[..|head|] == head;
    assert r[0] == head[0];
  }

  /** In a compile order, every contract after the selected one (at `idx`)
      that depends on it is in the list once the outer loop has visited it. */
  lemma {:induction false} DependentKept(deps: seq<string>, nodes: map<string, seq<string>>, contract: string, idx: nat, p: nat)
    requires CompileOrder(deps, nodes) && idx < p < |deps| && deps[idx] == contract
    requires DependsOn(nodes, deps[p], contract)
    ensures Select(nodes, [contract], deps[idx + 1..p + 1]).Ok?
    ensures deps[p] in Select(nodes, [contract], deps[idx + 1..p + 1]).value
    decreases p, 2
  {
    var later := deps[idx + 1..p + 1];
    var k := p - idx - 1;
    assert later[..k] == deps[idx + 1..p] && later[k] == deps[p] && later[..k + 1] == later;
    KeptBeforeImported(deps, nodes, contract, idx, p);
    SelectAppends(nodes, [contract], later, k);
  }

  /** When the outer loop reaches a contract that depends on the selected
      one, the list already holds something it imports. */
  lemma {:induction false} KeptBeforeImported(deps: seq<string>, nodes: map<string, seq<string>>, contract: string, idx: nat, p: nat)
    requires CompileOrder(deps, nodes) && idx < p < |deps| && deps[idx] == contract
    requires DependsOn(nodes, deps[p], contract)
    ensures deps[p] in nodes && Select(nodes, [contract], deps[idx + 1..p]).Ok?
    ensures ImportsAny(nodes[deps[p]], Select(nodes, [contract], deps[idx + 1..p]).value)
    decreases p, 1
  {
    OrderHasEntries(deps, nodes, [contract], idx + 1, p);
    var kept := Select(nodes, [contract], deps[idx + 1..p]).value;
    var q := NextInChain(deps, nodes, contract, idx, p);
    if contract in nodes[deps[p]] {
      SelectKeepsFirst(nodes, contract, deps[idx + 1..p]);
      assert kept[0] in nodes[deps[p]];
    } else {
      EarlierKept(deps, nodes, contract, idx, q, p);
      var m :| 0 <= m < |kept| && kept[m] == deps[q];
      assert kept[m] in nodes[deps[p]];
    }
  }

  /** A dependent contract at `q` is still in the list when the outer loop
      reaches a later position `p`. */
  lemma {:induction false} EarlierKept(deps: seq<string>, nodes: map<string, seq<string>>, contract: string, idx: nat, q: nat, p: nat)
    requires CompileOrder(deps, nodes) && idx < q < p < |deps| && deps[idx] == contract
    requires DependsOn(nodes, deps[q], contract)
    ensures Select(nodes, [contract], deps[idx + 1..p]).Ok?
    ensures deps[q] in Select(nodes, [contract], deps[idx + 1..p]).value
    decreases p, 0
  {
    var upToP := deps[idx + 1..p];
    var k := q - idx;
    assert upToP[..k] == deps[idx + 1..q + 1];
    DependentKept(deps, nodes, contract, idx, q);
    OrderHasEntries(deps, nodes, [contract], idx + 1, p);
    KeptStays(nodes, [contract], upToP, k, deps[q]);
  }

  /** Every contract after the selected one that depends on it ends up in
      the result. */
  lemma DependentInResult(deps: seq<string>, nodes: map<string, seq<string>>, contract: string, idx: nat, p: nat)
    requires CompileOrder(deps, nodes) && idx < p < |deps| && deps[idx] == contract
    requires DependsOn(nodes, deps[p], contract) && Select(nodes, [contract], deps[idx + 1..]).Ok?
    ensures deps[p] in Select(nodes, [contract], deps[idx + 1..]).value
  {
    var later := deps[idx + 1..];
    var k := p - idx - 1;
    assert later[..k + 1] == deps[idx + 1..p + 1];
    DependentKept(deps, nodes, contract, idx, p);
    KeptStays(nodes, [contract], later, k + 1, deps[p]);
  }

  /** Whatever the order, everything `optimize_deps` keeps is the selected
      contract or a later contract that depends on it. */
  lemma OptimizedOnlyDependents(deps: seq<string>, nodes: map<string, seq<string>>, contract: string)
    requires OptimizedDeps(deps, nodes, contract).Ok?
    ensures var r := OptimizedDeps(deps, nodes, contract).value;
      var later := deps[IndexOf(deps, contract).value + 1..];
      forall x :: x in r ==> x == contract || (x in later && DependsOn(nodes, x, contract))
  {
    var later := deps[IndexOf(deps, contract).value + 1..];
    var r := Select(nodes, [contract], later).value;
    KeptDepend(nodes, contract, later);
    SelectShape(nodes, [contract], later);
    SubsequenceMembers(r[1..], later);
    assert r == [contract] + r[1..];
  }

  /** In a compile order, `optimize_deps` succeeds and keeps every later
      contract that depends on the selected one. */
  lemma OptimizedAllDependents(deps: seq<string>, nodes: map<string, seq<string>>, contract: string)
    requires CompileOrder(deps, nodes) && contract in deps
    ensures OptimizedDeps(deps, nodes, contract).Ok?
    ensures var r := OptimizedDeps(deps, nodes, contract).value;
      var later := deps[IndexOf(deps, contract).value + 1..];
      forall x :: x in later && DependsOn(nodes, x, contract) ==> x in r
  {
    var idx := IndexOf(deps, contract).value;
    var later := deps[idx + 1..];
    assert later == deps[idx + 1..|deps|];
    OrderHasEntries(deps, nodes, [contract], idx + 1, |deps|);
    DependentsAt(deps, nodes, contract, idx, later);
  }

  /** The same, by position in what follows the selected contract. */
  lemma DependentsAt(deps: seq<string>, nodes: map<string, seq<string>>, contract: string, idx: nat, later: seq<string>)
    requires CompileOrder(deps, nodes) && idx < |deps| && deps[idx] == contract && later == deps[idx + 1..]
    requires Select(nodes, [contract], later).Ok?
    ensures forall x :: x in later && DependsOn(nodes, x, contract) ==> x in Select(nodes, [contract], later).value
  {
    forall x | x in later && DependsOn(nodes, x, contract)
      ensures x in Select(nodes, [contract], later).value
    {
      var k :| 0 <= k < |later| && later[k] == x;
      assert deps[idx + 1 + k] == x;
      DependentInResult(deps, nodes, contract, idx, idx + 1 + k);
    }
  }

  /** As its doc string promises, in a compile order `optimize_deps` keeps
      the selected contract and exactly the contracts after it that import
      it directly or transitively. */
  lemma OptimizedDependents(deps: seq<string>, nodes: map<string, seq<string>>, contract: string)
    requires CompileOrder(deps, nodes) && contract in deps
    ensures OptimizedDeps(deps, nodes, contract).Ok?
    ensures var r := OptimizedDeps(deps, nodes, contract).value;
      var later := deps[IndexOf(deps, contract).value + 1..];
      forall x :: x in r <==> x == contract || (x in later && DependsOn(nodes, x, contract))
  {
    OptimizedAllDependents(deps, nodes, contract);
    OptimizedOnlyDependents(deps, nodes, contract);
    OptimizedShape(deps, nodes, contract);
  }

  // ---------------------------------------------------------------------
  // broadcast_code
  // ---------------------------------------------------------------------

  /** The `error` member of a JSON-RPC reply. */
  datatype RpcError = RpcError(code: int, message: string)

  /** The reply to `eth_sendTransaction`: its `error` member when there is
      one, and its `result` (the transaction hash). */
  datatype SendReply = SendReply(error: Option<RpcError>, result: string)

  /** The only error after which the code is sent again. */
  const GAS_LIMIT_CODE: int := -32603
  const GAS_LIMIT_MESSAGE: string := "Exceeds block gas limit"

  /** The gas-limit error: this exact code and this exact message. */
  predicate IsGasLimitError(e: RpcError) {
    e.code == GAS_LIMIT_CODE && e.message == GAS_LIMIT_MESSAGE
  }

  /** What `broadcast_code` does with the reply to its send. */
  datatype SendDecision =
    | Poll(txHash: string)   // no error: poll for the receipt of this transaction
    | Resend                 // gas-limit error, estimate below the maximum: wait and send again
    | TooCostly              // gas-limit error, estimate at or above the maximum: abort
    | UnknownError           // any other error: abort

  /** The branch `broadcast_code` takes, given the gas estimate and the
      maximum it compares against: only the exact gas-limit error is retried
      or reported as too costly, every other error aborts, and a reply
      without error is polled for by its hash. */
  function DecideSend(reply: SendReply, costEstimate: int, maxGas: int): (d: SendDecision)
    ensures d.Poll? <==> reply.error.None?
    ensures d.Poll? ==> d.txHash == reply.result
    ensures d == Resend <==> reply.error == Some(RpcError(-32603, "Exceeds block gas limit")) && costEstimate < maxGas
    ensures d == TooCostly <==> reply.error == Some(RpcError(-32603, "Exceeds block gas limit")) && maxGas <= costEstimate
    ensures d == UnknownError <==> reply.error.Some? && reply.error != Some(RpcError(-32603, "Exceeds block gas limit"))
  {
    match reply.error
    case None => Poll(reply.result)
    case Some(e) =>
      if IsGasLimitError(e) then
        if costEstimate < maxGas then Resend else TooCostly
      else UnknownError
  }

  /** The poll loop's test of the code found at the receipt's address:
      `check != '0x' and check[2:] in evm`. */
  predicate CodeMatches(check: string, evm: string) {
    check != "0x" && Contains(evm, if |check| >= 2 then check[2..] else "")
  }

  /** For a reply of the usual form `0x<code>`: it matches exactly when the
      code is non-empty and occurs somewhere in the submitted code. */
  lemma CodeMatchesSpec(code: string, evm: string)
    ensures CodeMatches("0x" + code, evm) <==> code != [] && exists j :: 0 <= j && OccursAt(evm, code, j)
  {
    assert ("0x" + code)[2..] == code;
    ContainsOccurs(evm, code);
  }

  /** A reply shorter than two characters passes the check: its `[2:]` is
      empty, and the empty string occurs in every text. */
  lemma ShortReplyMatches(check: string, evm: string)
    requires |check| < 2
    ensures CodeMatches(check, evm)
  {
    ContainsOccurs(evm, "");
    assert OccursAt(evm, "", 0);
  }

  /** Query `t` of the poll loop finds the contract: there is a receipt, and
      the code at its contract address passes the check. */
  predicate Found(receiptAt: nat -> Option<string>, codeAt: (nat, string) -> string, evm: string, t: nat) {
    receiptAt(t).Some? && CodeMatches(codeAt(t, receiptAt(t).value), evm)
  }

  /** The receipt-poll loop of `broadcast_code`: `receiptAt(t)` is the
      receipt's `contractAddress` at query `t` (None for no receipt yet) and
      `codeAt(t, a)` the reply to `eth_getCode(a)` then; `maxTries` is the
      global `TRIES`.  It returns the address of the first query that finds
      the contract, and the count `tries` the script reports. */
  method PollForContract(receiptAt: nat -> Option<string>, codeAt: (nat, string) -> string, evm: string, maxTries: nat)
    returns (address: Option<string>, tries: nat)
    ensures tries <= maxTries
    ensures address.Some? <==> tries < maxTries
    ensures address.Some? ==> Found(receiptAt, codeAt, evm, tries) && address.value == receiptAt(tries).value
    ensures forall t: nat :: t < tries ==> !Found(receiptAt, codeAt, evm, t)
  {
    tries := 0;
    while tries < maxTries
      invariant tries <= maxTries
      invariant forall t: nat :: t < tries ==> !Found(receiptAt, codeAt, evm, t)
    {
      var receipt := receiptAt(tries);
      if receipt.Some? {
        var check := codeAt(tries, receipt.value);
        if CodeMatches(check, evm) {
          return Some(receipt.value), tries;
        }
      }
      tries := tries + 1;
    }
    address := None;
  }
}
