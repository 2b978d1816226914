/** `dapploader/namespace.py`: the namespace of a dapp, an ordered map from
    contract name to contract metadata, whose creator account is fixed when it
    is made.  Adding a source file derives the contract's name from the file
    name and its future address from the creator and the number of contracts
    already in the namespace. */
module Namespaces {
  import opened Wrappers
  import opened Text
  import opened Hex
  import opened Rlp
  import opened Addresses
  import opened OrderedMaps

  /** What `sanitized` computes for a contract: its `dependencies` (alias to
      contract name, in the order the aliases were first assigned), its
      `temp_code` and its `signature`. */
  datatype Sanitized = Sanitized(dependencies: OrderedMap<string>, tempCode: seq<string>, signature: string)

  /** The metadata dictionary of one contract.  `add_source` sets `path` and
      `address`; the other keys are optional, and reading one that is absent
      is a KeyError. */
  datatype ContractInfo = ContractInfo(
    path: string,
    address: string,
    rawCode: Option<seq<string>>,
    sanitized: Option<Sanitized>,
    processedCode: Option<string>)

  /** `rstrip('.se')` strips the SET {'.', 's', 'e'}. */
  const NAME_STRIP: set<char> := {'.', 's', 'e'}

  /** The name a source path is filed under: its base name with every trailing
      '.', 's' and 'e' removed. */
  function ContractName(path: string): string {
    RStrip(Basename(path), NAME_STRIP)
  }

  /** The address a namespace gives its contract number `nonce`: the address
      of the contract its creator would create with that nonce.  Each is a
      well-formed account address naming the last 20 bytes of the hash of the
      creator's seed for that nonce. */
  function AddressFor(hash: Hasher, creator: Bytes20): (addressOf: Nonce -> string)
    ensures forall n: Nonce ::
              && IsEthAddress(addressOf(n))
              && HexDecode(addressOf(n)[2..]) == Some(hash(CreationSeed(creator, n))[12..])
  {
    ContractAddressesDecode(hash, creator);
    (n: Nonce) => ContractAddress(hash, creator, n)
  }

  /** The namespace after `add_source(path)`: the entry for the path's name is
      set to the path and the address for nonce = current size. */
  function AddSourceTo(t: OrderedMap<ContractInfo>, addressOf: Nonce -> string, path: string): OrderedMap<ContractInfo>
    requires |t.keys| < NONCE_LIMIT
  {
    t.Set(ContractName(path), ContractInfo(path, addressOf(|t.keys|), None, None, None))
  }

  class Namespace {
    const creator: Bytes20
    var keys: seq<string>
    var entries: map<string, ContractInfo>

    function View(): OrderedMap<ContractInfo>
      reads this
    {
      OrderedMap(keys, entries)
    }

    ghost predicate Valid()
      reads this
    {
      View().Valid()
    }

    /** `Namespace(creator)`: empty, with its creator fixed for good. */
    constructor (creator: Bytes20)
      ensures Valid() && this.creator == creator
      ensures keys == [] && entries == map[]
    {
      this.creator := creator;
      keys := [];
      entries := map[];
    }

    /** `self[name] = info`, inherited from `OrderedDict`. */
    method Set(name: string, info: ContractInfo)
      requires Valid()
      modifies this
      ensures Valid()
      ensures View() == old(View()).Set(name, info)
    {
      if name !in entries {
        keys := keys + [name];
      }
      entries := entries[name := info];
    }

    /** `add_source(path)`. */
    method AddSource(path: string, hash: Hasher)
      requires Valid() && |keys| < NONCE_LIMIT
      modifies this
      ensures Valid()
      ensures View() == AddSourceTo(old(View()), AddressFor(hash, creator), path)
    {
      var codeName := ContractName(path);
      var addressSeed := CreationSeed(creator, |keys|);
      var address := AddressOfHexDigest(hash(addressSeed));
      Set(codeName, ContractInfo(path, address, None, None, None));
    }
  }

  /** Adding a path whose name is new appends that name, whose entry holds
      exactly the path and the address for nonce = previous size; every other
      entry is unchanged. */
  lemma AddSourceFresh(t: OrderedMap<ContractInfo>, addressOf: Nonce -> string, path: string)
    requires t.Valid() && |t.keys| < NONCE_LIMIT
    requires ContractName(path) !in t.entries
    ensures var r := AddSourceTo(t, addressOf, path);
      && r.Valid()
      && r.keys == t.keys + [ContractName(path)]
      && r.entries == t.entries[ContractName(path) := ContractInfo(path, addressOf(|t.keys|), None, None, None)]
  {
  }

  /** Adding a path whose name is already present keeps the key order and the
      size, replaces that entry whole (dropping any other fields it had), and
      takes the address for nonce = current size. */
  lemma AddSourceExisting(t: OrderedMap<ContractInfo>, addressOf: Nonce -> string, path: string)
    requires t.Valid() && |t.keys| < NONCE_LIMIT
    requires ContractName(path) in t.entries
    ensures var r := AddSourceTo(t, addressOf, path);
      && r.Valid()
      && r.keys == t.keys
      && r.entries == t.entries[ContractName(path) := ContractInfo(path, addressOf(|t.keys|), None, None, None)]
  {
  }

  /** `add_source` applied to each path in turn. */
  function AddSources(t: OrderedMap<ContractInfo>, addressOf: Nonce -> string, paths: seq<string>): (r: OrderedMap<ContractInfo>)
    requires |t.keys| + |paths| <= NONCE_LIMIT
    ensures |r.keys| <= |t.keys| + |paths|
  {
    if paths == [] then t
    else AddSourceTo(AddSources(t, addressOf, paths[..|paths| - 1]), addressOf, paths[|paths| - 1])
  }

  /** The names the paths are filed under, in order. */
  function Names(paths: seq<string>): (r: seq<string>)
    ensures |r| == |paths|
  {
    if paths == [] then [] else Names(paths[..|paths| - 1]) + [ContractName(paths[|paths| - 1])]
  }

  /** The names of the paths are those of all but the last, then the last one's. */
  lemma NamesLast(paths: seq<string>)
    requires paths != []
    ensures Names(paths) == Names(paths[..|paths| - 1]) + [ContractName(paths[|paths| - 1])]
  {
  }

  /** A non-empty sequence is its front followed by its last element. */
  lemma InitLast<T>(s: seq<T>)
    requires s != []
    ensures s == s[..|s| - 1] + [s[|s| - 1]]
  {
  }

  /** Adding several sources adds all but the last, then the last. */
  lemma AddSourcesLast(t: OrderedMap<ContractInfo>, addressOf: Nonce -> string, paths: seq<string>)
    requires |t.keys| + |paths| <= NONCE_LIMIT && paths != []
    ensures AddSources(t, addressOf, paths) == AddSourceTo(AddSources(t, addressOf, paths[..|paths| - 1]), addressOf, paths[|paths| - 1])
  {
  }

  /** Distinct names that are new to the namespace. */
  ghost predicate FreshNames(t: OrderedMap<ContractInfo>, names: seq<string>) {
    && (forall i, j :: 0 <= i < j < |names| ==> names[i] != names[j])
    && (forall i :: 0 <= i < |names| ==> names[i] !in t.entries)
  }

  /** Adding sources keeps the namespace well formed. */
  lemma {:induction false} AddSourcesValid(t: OrderedMap<ContractInfo>, addressOf: Nonce -> string, paths: seq<string>)
    requires t.Valid() && |t.keys| + |paths| <= NONCE_LIMIT
    ensures AddSources(t, addressOf, paths).Valid()
  {
    if paths != [] {
      AddSourcesValid(t, addressOf, paths[..|paths| - 1]);
    }
  }

  /** A prefix of distinct new names is distinct and new. */
  lemma FreshPrefix(t: OrderedMap<ContractInfo>, names: seq<string>, k: nat)
    requires k <= |names| && FreshNames(t, names)
    ensures FreshNames(t, names[..k])
  {
  }

  lemma FreshNamesInit(t: OrderedMap<ContractInfo>, paths: seq<string>)
    requires paths != [] && FreshNames(t, Names(paths))
    ensures FreshNames(t, Names(paths[..|paths| - 1]))
  {
    var init := paths[..|paths| - 1];
    var names := Names(paths);
    assert names == Names(init) + [ContractName(paths[|paths| - 1])];
    assert names[..|init|] == Names(init);
    FreshPrefix(t, names, |init|);
  }

  /** The last of several new names is not among the earlier ones. */
  lemma LastNameFresh(t: OrderedMap<ContractInfo>, addressOf: Nonce -> string, paths: seq<string>)
    requires t.Valid() && |t.keys| + |paths| <= NONCE_LIMIT && paths != []
    requires FreshNames(t, Names(paths))
    requires AddSources(t, addressOf, paths[..|paths| - 1]).keys == t.keys + Names(paths[..|paths| - 1])
    ensures ContractName(paths[|paths| - 1]) !in AddSources(t, addressOf, paths[..|paths| - 1]).entries
  {
    var n := |paths| - 1;
    var init := paths[..n];
    var names := Names(paths);
    assert names == Names(init) + [ContractName(paths[n])];
    assert names[n] !in Names(init) by {
      forall i | 0 <= i < n
        ensures Names(init)[i] != names[n]
      {
        assert Names(init)[i] == names[i];
      }
    }
    AddSourcesValid(t, addressOf, init);
    AbsentFromAppended(t, AddSources(t, addressOf, init), Names(init), names[n]);
  }

  /** With distinct new names, the names are appended in order. */
  lemma {:induction false} AddSourcesKeys(t: OrderedMap<ContractInfo>, addressOf: Nonce -> string, paths: seq<string>)
    requires t.Valid() && |t.keys| + |paths| <= NONCE_LIMIT
    requires FreshNames(t, Names(paths))
    ensures AddSources(t, addressOf, paths).keys == t.keys + Names(paths)
  {
    if paths != [] {
      var init := paths[..|paths| - 1];
      FreshNamesInit(t, paths);
      AddSourcesKeys(t, addressOf, init);
      LastNameFresh(t, addressOf, paths);
    } else {
      assert t.keys + Names(paths) == t.keys;
    }
  }

  /** With distinct new names, the i-th path added is filed under its name
      with the address for nonce (initial size + i), and the entries already
      present are unchanged. */
  lemma {:induction false} AddSourcesNonces(t: OrderedMap<ContractInfo>, addressOf: Nonce -> string, paths: seq<string>)
    requires t.Valid() && |t.keys| + |paths| <= NONCE_LIMIT
    requires FreshNames(t, Names(paths))
    ensures var r := AddSources(t, addressOf, paths);
      && (forall i :: 0 <= i < |paths| ==>
            && Names(paths)[i] in r.entries
            && r.entries[Names(paths)[i]] == ContractInfo(paths[i], addressOf(|t.keys| + i), None, None, None))
      && forall k :: k in t.entries ==> k in r.entries && r.entries[k] == t.entries[k]
  {
    if paths != [] {
      var n := |paths| - 1;
      var init := paths[..n];
      FreshNamesInit(t, paths);
      AddSourcesNonces(t, addressOf, init);
      AddSourcesKeys(t, addressOf, init);
      LastNameFresh(t, addressOf, paths);
      AddSourcesValid(t, addressOf, init);
      var r0 := AddSources(t, addressOf, init);
      assert |r0.keys| == |t.keys| + n;
      AddSourceFresh(r0, addressOf, paths[n]);
      AddSourcesLast(t, addressOf, paths);
      NamesLast(paths);
      InitLast(paths);
      NoncesStep(t, addressOf, init, paths[n], |r0.keys|, Names(init), ContractName(paths[n]), r0.entries, AddSourceTo(r0, addressOf, paths[n]).entries);
    }
  }

  /** The step of `AddSourcesNonces`: filing the last path under its fresh
      name keeps what the earlier paths and the namespace had filed. */
  lemma NoncesStep(t: OrderedMap<ContractInfo>, addressOf: Nonce -> string, init: seq<string>, path: string, m: Nonce,
                   names0: seq<string>, last: string, e0: map<string, ContractInfo>, e: map<string, ContractInfo>)
    requires |t.keys| + |init| < NONCE_LIMIT
    requires m == |t.keys| + |init| && |names0| == |init| && last !in e0
    requires forall i :: 0 <= i < |init| ==>
               names0[i] in e0 && e0[names0[i]] == ContractInfo(init[i], addressOf(|t.keys| + i), None, None, None)
    requires forall k :: k in t.entries ==> k in e0 && e0[k] == t.entries[k]
    requires e == e0[last := ContractInfo(path, addressOf(m), None, None, None)]
    ensures forall i :: 0 <= i < |init| + 1 ==>
              && (names0 + [last])[i] in e
              && e[(names0 + [last])[i]] == ContractInfo((init + [path])[i], addressOf(|t.keys| + i), None, None, None)
    ensures forall k :: k in t.entries ==> k in e && e[k] == t.entries[k]
  {
    forall i | 0 <= i < |init| + 1
      ensures (names0 + [last])[i] in e
      ensures e[(names0 + [last])[i]] == ContractInfo((init + [path])[i], addressOf(|t.keys| + i), None, None, None)
    {
      if i < |init| {
        assert (names0 + [last])[i] == names0[i] && (init + [path])[i] == init[i];
      }
    }
  }

  /** Re-adding a name leaves the size unchanged, so the next new contract is
      given the same nonce, and the same address, as the re-added one. */
  lemma ReAddSharesNonce(t: OrderedMap<ContractInfo>, addressOf: Nonce -> string, p1: string, p2: string, p3: string)
    requires t.Valid() && |t.keys| + 3 <= NONCE_LIMIT
    requires ContractName(p1) == ContractName(p2) && ContractName(p1) !in t.entries
    requires ContractName(p3) != ContractName(p1) && ContractName(p3) !in t.entries
    ensures var t1 := AddSourceTo(t, addressOf, p1);
      var t2 := AddSourceTo(t1, addressOf, p2);
      var t3 := AddSourceTo(t2, addressOf, p3);
      && |t3.keys| == |t.keys| + 2
      && ContractName(p2) in t3.entries && ContractName(p3) in t3.entries
      && t3.entries[ContractName(p2)].address == addressOf(|t.keys| + 1)
      && t3.entries[ContractName(p3)].address == addressOf(|t.keys| + 1)
  {
    AddSourceFresh(t, addressOf, p1);
    var t1 := AddSourceTo(t, addressOf, p1);
    AddSourceExisting(t1, addressOf, p2);
    AddSourceFresh(AddSourceTo(t1, addressOf, p2), addressOf, p3);
  }

  /** A file `dir/n.se` is filed under `n` when `n` has no '/' and does not
      end in '.', 's' or 'e'. */
  lemma SourceFileName(dir: string, n: string)
    requires n != [] && n[|n| - 1] !in NAME_STRIP
    requires forall i :: 0 <= i < |n| ==> n[i] != '/'
    ensures ContractName(dir + "/" + n + ".se") == n
  {
    var file := n + ".se";
    assert dir + "/" + n + ".se" == dir + "/" + file;
    BasenameAfterSlash(dir, file);
    RStripStopsAt(file, NAME_STRIP, |n|);
    assert file[..|n|] == n;
  }

  /** ... and the set-strip eats into names that do end in those letters. */
  lemma SetStripTruncatesName(path: string)
    requires path == "contracts/base.se"
    ensures ContractName(path) == "ba"
  {
    BasenameAfterSlash("contracts", "base.se");
    assert path == "contracts" + "/" + "base.se";
    RStripStopsAt("base.se", NAME_STRIP, 2);
  }
}
