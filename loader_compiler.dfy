/** `load_contracts/compiler.py`: the older loader's `Compiler` collects the
    Serpent sources to deploy and assigns each the address it will get when
    the creator account deploys them one after another, starting from the
    account's current transaction count.  It also validates the RPC address
    (`http`) and the creator account (`ethaddress`). */
module LoaderCompiler {
  import opened Wrappers
  import opened Text
  import opened Hex
  import opened Rlp
  import opened Addresses
  import opened Namespaces

  /** One entry of `contract_info`: the `path`, and the `address` once assigned. */
  datatype SourceInfo = SourceInfo(path: string, address: Option<string>)

  // ---- The `http` pattern `^(?:\d{1,3}\.\d{1,3}\.\d{1,3}\.\d{1,3}|[\w.])+:\d{1,5}$` ----

  /** `\d` (the pattern is compiled without the Unicode flag). */
  predicate IsDigit(c: char) {
    '0' <= c <= '9'
  }

  /** `[\w.]`. */
  predicate IsHostChar(c: char) {
    IsDigit(c) || 'a' <= c <= 'z' || 'A' <= c <= 'Z' || c == '_' || c == '.'
  }

  predicate AllDigits(s: string) {
    forall i :: 0 <= i < |s| ==> IsDigit(s[i])
  }

  /** `\d{lo,hi}`. */
  predicate DigitRun(s: string, lo: nat, hi: nat) {
    lo <= |s| <= hi && AllDigits(s)
  }

  /** `\d{1,3}\.\d{1,3}\.\d{1,3}\.\d{1,3}`. */
  predicate IsDottedQuad(s: string) {
    var parts := SplitOn(s, ".");
    |parts| == 4 && forall p :: 0 <= p < 4 ==> DigitRun(parts[p], 1, 3)
  }

  /** `(?:<dotted quad>|[\w.])+`: the string is a non-empty run of pieces,
      each a dotted quad or a single `[\w.]` character. */
  ghost predicate HostRun(s: string)
    decreases |s|
  {
    && s != []
    && (|| (IsHostChar(s[0]) && (|s| == 1 || HostRun(s[1..])))
        || exists k :: 1 <= k <= |s| && IsDottedQuad(s[..k]) && (k == |s| || HostRun(s[k..])))
  }

  /** The whole pattern up to `$`: host, ':', port of one to five digits. */
  ghost predicate HttpExact(s: string) {
    exists k :: 0 <= k < |s| && s[k] == ':' && HostRun(s[..k]) && DigitRun(s[k + 1..], 1, 5)
  }

  /** `http.match(s)`: `$` also matches before a newline that ends the string. */
  ghost predicate HttpPattern(s: string) {
    HttpExact(s) || (s != [] && s[|s| - 1] == '\n' && HttpExact(s[..|s| - 1]))
  }

  /** The pieces of a split on '.' that are all digits leave only digits and dots. */
  lemma {:induction false} SplitDigitsChars(s: string)
    requires forall p :: 0 <= p < |SplitOn(s, ".")| ==> AllDigits(SplitOn(s, ".")[p])
    ensures forall m :: 0 <= m < |s| ==> IsDigit(s[m]) || s[m] == '.'
    decreases |s|
  {
    FindFromSpec(s, ".", 0);
    match FindFirst(s, ".")
    case None =>
      assert SplitOn(s, ".")[0] == s;
    case Some(i) =>
      var rest := s[i + 1..];
      assert SplitOn(s, ".") == [s[..i]] + SplitOn(rest, ".");
      forall p | 0 <= p < |SplitOn(rest, ".")|
        ensures AllDigits(SplitOn(rest, ".")[p])
      {
        assert SplitOn(rest, ".")[p] == SplitOn(s, ".")[p + 1];
      }
      SplitDigitsChars(rest);
      forall m | 0 <= m < |s|
        ensures IsDigit(s[m]) || s[m] == '.'
      {
        if m < i {
          assert s[m] == SplitOn(s, ".")[0][m];
        } else if m == i {
          assert s[i..i + 1] == ".";
        } else {
          assert s[m] == rest[m - i - 1];
        }
      }
  }

  /** A dotted quad is made of `[\w.]` characters. */
  lemma DottedQuadChars(s: string)
    requires IsDottedQuad(s)
    ensures forall m :: 0 <= m < |s| ==> IsHostChar(s[m])
  {
    SplitDigitsChars(s);
  }

  /** The dotted-quad alternative adds nothing: a host run is exactly a
      non-empty string of `[\w.]` characters. */
  lemma {:induction false} HostRunChars(s: string)
    ensures HostRun(s) <==> s != [] && forall i :: 0 <= i < |s| ==> IsHostChar(s[i])
    decreases |s|
  {
    if s != [] {
      if |s| > 1 {
        HostRunChars(s[1..]);
      }
      if HostRun(s) && !(IsHostChar(s[0]) && (|s| == 1 || HostRun(s[1..]))) {
        var k :| 1 <= k <= |s| && IsDottedQuad(s[..k]) && (k == |s| || HostRun(s[k..]));
        DottedQuadChars(s[..k]);
        if k < |s| {
          HostRunChars(s[k..]);
        }
        forall i | 0 <= i < |s|
          ensures IsHostChar(s[i])
        {
          if i < k {
            assert s[i] == s[..k][i];
          } else {
            assert s[i] == s[k..][i - k];
          }
        }
      }
      if forall i :: 0 <= i < |s| ==> IsHostChar(s[i]) {
        if |s| > 1 {
          assert forall i :: 0 <= i < |s| - 1 ==> s[1..][i] == s[i + 1];
        }
      }
    }
  }

  /** `http` accepts exactly one or more `[\w.]` characters, ':', and one to
      five digits (plus the newline `$` lets through). */
  lemma HttpShape(s: string)
    ensures HttpExact(s) <==>
      exists k :: 0 < k < |s| && s[k] == ':' && (forall i :: 0 <= i < k ==> IsHostChar(s[i])) && DigitRun(s[k + 1..], 1, 5)
  {
    forall k | 0 <= k < |s|
      ensures HostRun(s[..k]) <==> k > 0 && forall i :: 0 <= i < k ==> IsHostChar(s[i])
    {
      HostRunChars(s[..k]);
      assert forall i :: 0 <= i < k ==> s[..k][i] == s[i];
    }
  }

  /** The default HTTP endpoint of the test network is accepted. */
  lemma TestnetHttpAccepted(s: string)
    requires s == "localhost:9090"
    ensures HttpPattern(s)
  {
    HttpShape(s);
    assert s[9] == ':' && s[10..] == "9090";
    assert forall i :: 0 <= i < 9 ==> IsHostChar(s[i]);
  }

  // ---- The creator account ----

  /** `creator if ethaddress.match(creator) else coinbase`, with the pattern
      read as intended (no trailing newline). */
  function SelectCreator(creator: string, coinbase: string): string {
    if IsEthAddress(creator) then creator else coinbase
  }

  /** The same choice with the pattern as Python's `re` applies it. */
  function SelectCreatorAsWritten(creator: string, coinbase: string): string {
    if EthAddrPattern(creator) then creator else coinbase
  }

  /** `creator_address[2:].decode('hex')`: TypeError on odd length or a
      character that is not a hex digit. */
  function RawCreator(creatorAddress: string): Result<seq<Byte>> {
    var digits := if |creatorAddress| >= 2 then creatorAddress[2..] else [];
    match HexDecode(digits)
    case None => Err(TypeError(digits))
    case Some(raw) => Ok(raw)
  }

  /** The creator part of `Compiler.__init__`: the creator address and its raw bytes. */
  function CreatorOf(creator: string, coinbase: string): Result<(string, seq<Byte>)> {
    var address := SelectCreator(creator, coinbase);
    match RawCreator(address)
    case Err(e) => Err(e)
    case Ok(raw) => Ok((address, raw))
  }

  /** A well-formed creator is kept and decodes to 20 bytes; any other value
      gives way to the coinbase, and a well-formed coinbase decodes too. */
  lemma CreatorChoice(creator: string, coinbase: string)
    ensures IsEthAddress(creator) ==>
      CreatorOf(creator, coinbase).Ok? && CreatorOf(creator, coinbase).value.0 == creator
    ensures !IsEthAddress(creator) ==> SelectCreator(creator, coinbase) == coinbase
    ensures IsEthAddress(SelectCreator(creator, coinbase)) ==>
      CreatorOf(creator, coinbase).Ok? && |CreatorOf(creator, coinbase).value.1| == 20
  {
    var a := SelectCreator(creator, coinbase);
    if IsEthAddress(a) {
      EthAddressDecodes(a);
    }
  }

  /** With the pattern as written, a creator that is an address followed by a
      newline is kept, and decoding it then raises TypeError, where the
      intended reading falls back to the coinbase. */
  lemma CreatorNewlineAsWritten(a: string, coinbase: string)
    requires IsEthAddress(a)
    ensures SelectCreatorAsWritten(a + "\n", coinbase) == a + "\n"
    ensures RawCreator(SelectCreatorAsWritten(a + "\n", coinbase)).Err?
    ensures SelectCreator(a + "\n", coinbase) == coinbase
  {
    EthAddrPatternAcceptsNewline(a);
  }

  // ---- Source paths ----

  /** `os.path.join(dirname, basename)` (POSIX). */
  function PathJoin(dirname: string, basename: string): (r: string) {
    if basename != [] && basename[0] == '/' then basename
    else if dirname == [] || dirname[|dirname| - 1] == '/' then dirname + basename
    else dirname + "/" + basename
  }

  /** A file name joined to its directory is the joined path's base name, so
      the contract is later filed under the file name with its trailing
      '.', 's' and 'e' stripped. */
  lemma PathJoinBasename(dirname: string, basename: string)
    requires forall i :: 0 <= i < |basename| ==> basename[i] != '/'
    ensures Basename(PathJoin(dirname, basename)) == basename
    ensures ContractName(PathJoin(dirname, basename)) == RStrip(basename, NAME_STRIP)
  {
    if dirname == [] || dirname[|dirname| - 1] == '/' {
      BasenameAfterPrefix(dirname, basename);
    } else {
      BasenameAfterPrefix(dirname + "/", basename);
      assert dirname + "/" + basename == (dirname + "/") + basename;
    }
  }

  /** The list after assigning addresses: entry `i` gets the address of the
      contract created with nonce `txNonce + i`, `addressOf` giving the
      address for a nonce (`AddressFor` of the hash and the creator). */
  function Assigned(infos: seq<SourceInfo>, addressOf: Nonce -> string, txNonce: nat): (r: seq<SourceInfo>)
    requires txNonce + |infos| <= NONCE_LIMIT
    ensures |r| == |infos|
    ensures forall i :: 0 <= i < |r| ==> r[i] == infos[i].(address := Some(addressOf(txNonce + i)))
  {
    if infos == [] then []
    else
      var n := |infos| - 1;
      Assigned(infos[..n], addressOf, txNonce) + [infos[n].(address := Some(addressOf(txNonce + n)))]
  }

  /** Assigning keeps the list's length, order and paths; entry `i` gets the
      address of the contract the creator creates with nonce `txNonce + i`,
      a well-formed address (`ContractAddressDecodes` says which bytes it
      names); and different entries hash different seeds. */
  lemma AssignedSpec(infos: seq<SourceInfo>, hash: Hasher, creator: Bytes20, txNonce: nat)
    requires txNonce + |infos| <= NONCE_LIMIT
    ensures var r := Assigned(infos, AddressFor(hash, creator), txNonce);
      && |r| == |infos|
      && (forall i :: 0 <= i < |r| ==>
            && r[i].path == infos[i].path
            && r[i].address == Some(ContractAddress(hash, creator, txNonce + i))
            && IsEthAddress(r[i].address.value))
      && (forall n1: Nonce, n2: Nonce :: txNonce <= n1 < n2 < txNonce + |r| ==> CreationSeed(creator, n1) != CreationSeed(creator, n2))
  {
    var r := Assigned(infos, AddressFor(hash, creator), txNonce);
    forall i | 0 <= i < |r|
      ensures r[i].address == Some(ContractAddress(hash, creator, txNonce + i))
      ensures IsEthAddress(r[i].address.value)
    {
      ContractAddressDecodes(hash, creator, txNonce + i);
    }
    forall n1: Nonce, n2: Nonce | txNonce <= n1 < n2 < txNonce + |r|
      ensures CreationSeed(creator, n1) != CreationSeed(creator, n2)
    {
      DistinctNoncesDistinctSeeds(creator, n1, n2);
    }
  }

  /** The loop of `assign_addresses()` over the source list. */
  method AssignLoop(infos: seq<SourceInfo>, addressOf: Nonce -> string, txNonce: nat) returns (cur: seq<SourceInfo>)
    requires txNonce + |infos| <= NONCE_LIMIT
    ensures cur == Assigned(infos, addressOf, txNonce)
  {
    ghost var want := Assigned(infos, addressOf, txNonce);
    cur := infos;
    var i := 0;
    while i < |cur|
      invariant 0 <= i <= |cur| == |infos|
      invariant cur[..i] == want[..i] && cur[i..] == infos[i..]
    {
      var address := addressOf(txNonce + i);
      assert want[i] == cur[i].(address := Some(address));
      cur := cur[i := cur[i].(address := Some(address))];
      i := i + 1;
    }
  }

  class Compiler {
    const creatorAddress: string
    const rawCreatorAddress: seq<Byte>
    var contractInfo: seq<SourceInfo>

    /** The creator part of `__init__`: `creator` when it is a well-formed
        address, otherwise the node's `coinbase`, and that address decoded;
        `__init__` raises the TypeError `CreatorOf` reports when the decoding
        fails, so an object exists only when it succeeds.  A well-formed
        chosen address gives a 20-byte raw creator. */
    constructor (creator: string, coinbase: string)
      requires CreatorOf(creator, coinbase).Ok?
      ensures (creatorAddress, rawCreatorAddress) == CreatorOf(creator, coinbase).value
      ensures IsEthAddress(creator) ==> creatorAddress == creator
      ensures !IsEthAddress(creator) ==> creatorAddress == coinbase
      ensures IsEthAddress(creatorAddress) ==> |rawCreatorAddress| == 20
      ensures contractInfo == []
    {
      var address := creator;
      if !IsEthAddress(creator) {
        address := coinbase;
      }
      CreatorChoice(creator, coinbase);
      var digits := if |address| >= 2 then address[2..] else [];
      var raw := HexDecode(digits);
      creatorAddress := address;
      rawCreatorAddress := raw.value;
      contractInfo := [];
    }

    /** `add_source_path(dirname, basename)`; `isFile` is `os.path.isfile`
        of the joined path. */
    method AddSourcePath(dirname: string, basename: string, isFile: bool)
      modifies this
      ensures EndsWith(basename, ".se") && isFile ==>
        contractInfo == old(contractInfo) + [SourceInfo(PathJoin(dirname, basename), None)]
      ensures !(EndsWith(basename, ".se") && isFile) ==> contractInfo == old(contractInfo)
    {
      if EndsWith(basename, ".se") {
        var path := PathJoin(dirname, basename);
        if isFile {
          contractInfo := contractInfo + [SourceInfo(path, None)];
        }
      }
    }

    /** `assign_addresses()`, given the creator's transaction count. */
    method AssignAddresses(txNonce: nat, hash: Hasher)
      requires |rawCreatorAddress| == 20 && txNonce + |contractInfo| <= NONCE_LIMIT
      modifies this
      ensures contractInfo == Assigned(old(contractInfo), AddressFor(hash, rawCreatorAddress), txNonce)
    {
      contractInfo := AssignLoop(contractInfo, AddressFor(hash, rawCreatorAddress), txNonce);
    }
  }
}
