# DappLoader deployment pipeline, modelled in Dafny

DappLoader prepares Serpent contracts for the Ethereum network and deploys
them. Two generations of the loader do this.

- `dapploader`: a `Namespace` maps contract names to metadata. Adding a
  source file derives the contract's name from its file name. It also
  derives the address the contract will get from the creator account and the
  number of contracts already present. `sanitized` takes the
  `import <name> as <alias>` lines out of a contract's raw code and records
  them as dependencies, keeping the rest as `temp_code` with its Serpent
  signature. A preprocessor then writes each contract's `processed_code`.
  The macro preprocessor puts each dependency's signature and a
  `macro <alias>: <address>` line before the code. The registry preprocessor
  instead writes a `def any():` block that looks each dependency up in a
  registry.
- `load_contracts`: the older loader's `SimplePreProcessor` does the same
  rewriting in two passes over files read from disk. Its `Compiler` collects
  `.se` source files and gives each the address it will get when the creator
  deploys them one after another. It validates the creator account and the
  RPC endpoint with regular expressions. The script itself narrows a compile
  order to one contract and its dependents (`optimize_deps`). While
  broadcasting code, it classifies send errors and polls for the deployed
  contract.

Contract addresses follow section 7 of the Ethereum Yellow Paper. An
address is the last 20 bytes of the Keccak-256 hash of the RLP encoding
(Appendix B) of `[creator, nonce]`. The model proves the following:

- the RLP seed decodes back to creator and nonce;
- the address text is well formed and hex-decodes to the hashed bytes;
- dependencies are collected and rewritten exactly as the loops do, in the
  dictionaries' insertion order, stopping at the first error;
- `optimize_deps` keeps exactly the contract and its transitive dependents
  when the order is a compile order.

The model also captures several Python behaviours the pipeline inherits:

- `lstrip`/`rstrip` strip a set of characters, not a prefix or suffix;
- `re.match` with `$` accepts a trailing newline;
- `list.index` raises `ValueError`;
- a missing dictionary key raises `KeyError`.

The foreign collaborators are parameters of the operations that need them:

- the Keccak hash (`Hasher`);
- `serpent.mk_signature` (`Signer`);
- file contents (a map from path to text);
- the JSON-RPC replies.

Modules:

| file | module | models |
|---|---|---|
| wrappers.dfy | Wrappers | `Option`, `Result`, the exceptions raised |
| text.dfy | Text | `lstrip`, `rstrip`, `basename`, `split`, `join`, `in` on strings |
| imports.dfy | Imports | the `import <name> as <alias>` line as both loaders parse it |
| hex.dfy | Hex | `hexdigest`/`encode('hex')` and `decode('hex')` |
| rlp.dfy | Rlp | RLP of `[creator, nonce]` |
| addresses.dfy | Addresses | contract addresses and the address pattern |
| ordered_maps.dfy | OrderedMaps | insertion-ordered dictionaries |
| namespace.dfy | Namespaces | `dapploader/namespace.py` |
| dapp_compiler.dfy | DappCompiler | `sanitized` in `dapploader/compiler.py` |
| dapp_preprocessors.dfy | DappPreprocessors | `dapploader/preprocessors.py` |
| loader_preprocessors.dfy | LoaderPreprocessors | `load_contracts/preprocessors.py` |
| loader_compiler.dfy | LoaderCompiler | `load_contracts/compiler.py` |
| load_contracts.dfy | LoadContracts | `optimize_deps` and `broadcast_code` in `load_contracts/load_contracts.py` |

## Model

| member | source | states |
|---|---|---|
| Text.LStrip | dapploader/compiler.py:14 | `lstrip` never lengthens the text |
| Text.LStripSuffix | dapploader/compiler.py:14 | `lstrip` leaves a suffix that does not start with a stripped character, and only stripped characters precede it |
| Text.LStripStopsAt | load_contracts/preprocessors.py:50 | the strip stops exactly at the first character outside the set |
| Text.RStrip | dapploader/namespace.py:13 | `rstrip` never lengthens the text |
| Text.RStripPrefix | dapploader/namespace.py:13 | `rstrip` leaves a prefix that does not end in a stripped character, and only stripped characters follow it |
| Text.RStripStopsAt | load_contracts/preprocessors.py:21 | the strip stops exactly at the last character outside the set |
| Text.Basename | dapploader/namespace.py:13 | `basename` never lengthens the path |
| Text.BasenameSuffix | dapploader/namespace.py:13 | the base name is the longest suffix without '/' |
| Text.BasenameAfterSlash | load_contracts/preprocessors.py:21 | the base name of `dir/name` is `name` when `name` has no '/' |
| Text.BasenameAfterPrefix | load_contracts/compiler.py:56 | the base name of a prefix ending in '/' plus a slash-free name is that name |
| Text.FindFrom | load_contracts/load_contracts.py:103 | a found position lies at or after the start and leaves room for the pattern |
| Text.FindFromSpec | load_contracts/load_contracts.py:103 | the scan returns an occurrence, the first one; no result means no occurrence |
| Text.ContainsOccurs | load_contracts/load_contracts.py:103 | `needle in hay` holds exactly when the needle occurs at some position |
| Text.SplitOn | dapploader/compiler.py:14 | `split` always gives at least one piece |
| Text.SplitOnPieces | dapploader/compiler.py:14 | no piece of a split contains the separator |
| Text.JoinSplit | load_contracts/preprocessors.py:32 | joining the pieces of a split on the same separator gives the text back |
| Text.SplitJoin | load_contracts/preprocessors.py:42 | joining newline-free lines and splitting on newline gives the lines back |
| Imports.ParseImportSpec | dapploader/compiler.py:14 | an import line unpacks exactly when the stripped text splits into two pieces; they are the text around the only separator, and neither contains one |
| Imports.CodeLines | load_contracts/preprocessors.py:36-40 | the kept lines are all non-import lines and never outnumber the input |
| Imports.ImportLines | load_contracts/preprocessors.py:36-38 | the collected lines are all import lines and never outnumber the input |
| Imports.LinesPartitioned | load_contracts/preprocessors.py:36-40 | every line goes to exactly one of the two lists |
| Imports.CodeLinesOfCode | load_contracts/preprocessors.py:36-40 | without import lines nothing is removed and no import is collected |
| Imports.ImportStripsCharacters | dapploader/compiler.py:14 | the set-strip turns `import token as t` into the name `ken` and the alias `t` |
| Imports.ImportWithTwoSeparatorsFails | dapploader/compiler.py:14 | a line with two ` as ` separators does not unpack |
| Hex.DigitValue | load_contracts/compiler.py:45 | a character has a value exactly when it is a hex digit of either case, and the value is below 16 |
| Hex.ToHex | dapploader/namespace.py:15 | the hex text has two lowercase hex digits per byte |
| Hex.HexDecode | load_contracts/compiler.py:45 | `decode('hex')` succeeds exactly on even-length text of hex digits, giving one byte per two digits |
| Hex.HexRoundTrip | load_contracts/compiler.py:83 | `decode('hex')` undoes `encode('hex')` |
| Hex.HexAppend | dapploader/namespace.py:15 | hex text distributes over concatenation of bytes |
| Rlp.ToBE | load_contracts/compiler.py:82 | the nonce's bytes are empty exactly for zero and never start with a zero byte |
| Rlp.FromToBE | load_contracts/compiler.py:82 | the big-endian bytes denote the nonce |
| Rlp.ToBELength | load_contracts/compiler.py:82 | a nonce below 256^k takes at most k bytes |
| Rlp.CreationSeedShape | dapploader/namespace.py:14 | the seed is a short list header, the creator as a 20-byte item, and the nonce |
| Rlp.SeedRoundTrip | dapploader/namespace.py:14 | the seed decodes back to the creator and the nonce |
| Rlp.SeedInjective | load_contracts/compiler.py:82 | different creator/nonce pairs never share a seed |
| Addresses.AddressOfDigest | load_contracts/compiler.py:83 | the address text has 42 characters |
| Addresses.AddressOfDigestDecodes | load_contracts/compiler.py:83 | the address is well formed and hex-decodes to the digest's last 20 bytes |
| Addresses.AddressOfHexDigest | dapploader/namespace.py:15 | `'0x' + hexdigest()[24:]` is the same address as `'0x' + digest()[12:].encode('hex')` |
| Addresses.ContractAddressDecodes | load_contracts/compiler.py:82-83 | a contract address is well formed and names the last 20 bytes of the hash of the creation seed |
| Addresses.ContractAddressesDecode | dapploader/namespace.py:14-15 | for every nonce, the creator's contract address is well formed and names the last 20 bytes of the hash of that nonce's seed |
| Addresses.DistinctNoncesDistinctSeeds | load_contracts/compiler.py:81-82 | one creator's different nonces give different seeds |
| Addresses.EthAddressDecodes | load_contracts/compiler.py:45 | an address that passes validation hex-decodes to 20 bytes |
| Addresses.EthAddrPatternAcceptsNewline | dapploader/compiler.py:2 | the pattern as applied also accepts an address plus a newline, which does not hex-decode |
| Addresses.EthAddrPatternExact | load_contracts/compiler.py:22 | apart from that newline, the pattern accepts exactly the well-formed addresses |
| OrderedMaps.OrderedMap.Set | dapploader/namespace.py:16 | the value is stored under the key; a new key goes last and an existing key keeps its place; the dictionary stays well formed |
| OrderedMaps.Empty | dapploader/compiler.py:10 | the empty dictionary is well formed |
| OrderedMaps.AbsentFromAppended | dapploader/namespace.py:16 | a key in neither the old keys nor the appended ones is absent |
| OrderedMaps.SameKeysValid | dapploader/preprocessors.py:63 | replacing values without changing keys keeps the dictionary well formed |
| Namespaces.AddressFor | dapploader/namespace.py:14-15 | each nonce's address is a well-formed account address naming the last 20 bytes of the hash of the creator's seed for that nonce |
| Namespaces.Namespace.constructor | dapploader/namespace.py:8-9 | a new namespace is empty, with its creator fixed |
| Namespaces.Namespace.Set | dapploader/namespace.py:16 | item assignment appends a new key or replaces an existing value in place |
| Namespaces.Namespace.AddSource | dapploader/namespace.py:11-16 | the entry for the path's name becomes the path and the address for nonce = current size |
| Namespaces.AddSourceFresh | dapploader/namespace.py:11-16 | a new name is appended with exactly its path and address; nothing else changes |
| Namespaces.AddSourceExisting | dapploader/namespace.py:11-16 | a present name keeps order and size and has its entry replaced whole |
| Namespaces.AddSources | dapploader/namespace.py:11-16 | adding paths adds at most one key per path |
| Namespaces.AddSourcesValid | dapploader/namespace.py:11-16 | adding sources keeps the namespace well formed |
| Namespaces.AddSourcesKeys | dapploader/namespace.py:16 | with distinct new names, the names are appended in order |
| Namespaces.AddSourcesNonces | dapploader/namespace.py:14-16 | the i-th new path gets the address for nonce (initial size + i); earlier entries are unchanged |
| Namespaces.ReAddSharesNonce | dapploader/namespace.py:14 | re-adding a name does not grow the namespace, so the next new contract gets the same address |
| Namespaces.SourceFileName | dapploader/namespace.py:13 | `dir/n.se` is filed under `n` when `n` has no '/' and does not end in '.', 's' or 'e' |
| Namespaces.SetStripTruncatesName | dapploader/namespace.py:13 | `contracts/base.se` is filed under `ba` |
| DappCompiler.Sanitize | dapploader/compiler.py:8-20 | the loop computes `sanitized`'s dependencies, code lines and signature, or the first error |
| DappCompiler.SplitImportsErrStays | dapploader/compiler.py:14 | once an import line has failed, later lines change nothing |
| DappCompiler.SplitImportsFails | dapploader/compiler.py:14 | `sanitized` fails exactly when some import line does not unpack, and reports the first such line |
| DappCompiler.SplitImportsCode | dapploader/compiler.py:16-17 | `temp_code` is exactly the non-import lines, in order |
| DappCompiler.SplitImportsDeps | dapploader/compiler.py:13-15 | the dependencies hold every alias imported, mapped to the name of its last import, and nothing else |
| DappCompiler.SplitImportsValid | dapploader/compiler.py:15 | the dependencies form a well-formed dictionary |
| DappCompiler.SplitImportsLast | dapploader/compiler.py:15 | every alias maps to the name given by its last import line |
| DappCompiler.LastImportExtends | dapploader/compiler.py:15 | a later line that imports another alias does not overwrite an entry |
| DappCompiler.SplitImportsCover | dapploader/compiler.py:13-15 | every import line's alias is a key |
| DappCompiler.NoImports | dapploader/compiler.py:12-17 | without import lines: no dependencies, and `temp_code` is the raw code |
| DappCompiler.SanitizedContents | dapploader/compiler.py:18-20 | success exactly when imports parse; then `temp_code` is the code lines and the signature is that of their newline-joined text |
| DappCompiler.SanitizeIdempotent | dapploader/compiler.py:8-20 | sanitizing `temp_code` again gives the same code, no dependencies and the same signature |
| DappPreprocessors.DepErrStays | dapploader/preprocessors.py:57-61 | once reading a dependency has failed, later ones change nothing |
| DappPreprocessors.RunErrStays | dapploader/preprocessors.py:54-63 | once a contract has failed, later contracts change nothing |
| DappPreprocessors.DepLinesFrame | dapploader/preprocessors.py:59-60 | the dependency lines do not depend on `processed_code` already written |
| DappPreprocessors.ProcessedCodeFrame | dapploader/preprocessors.py:55-63 | a contract's code does not depend on `processed_code` already written |
| DappPreprocessors.RunFrame | dapploader/preprocessors.py:63 | a run changes only `processed_code` |
| DappPreprocessors.UpdateCodeKeeps | dapploader/preprocessors.py:63 | writing one contract's code changes only that field |
| DappPreprocessors.RunUntouched | dapploader/preprocessors.py:54 | contracts the run has not reached are unchanged |
| DappPreprocessors.RunDone | dapploader/preprocessors.py:54-63 | every contract the run got through carries its processed code |
| DappPreprocessors.RunFails | dapploader/preprocessors.py:54-63 | a failing run stops at the first contract whose code cannot be produced, with its error; earlier contracts are written, later ones untouched |
| DappPreprocessors.RunStep | dapploader/preprocessors.py:55-63 | the next contract is untouched, and its code on the partly rewritten namespace equals its code on the original |
| DappPreprocessors.RunNext | dapploader/preprocessors.py:55-63 | one loop step either ends the run with that contract's error or extends it by one written contract |
| DappPreprocessors.RewrittenPasses | dapploader/preprocessors.py:54-63 | a run succeeds exactly when every contract's code can be produced, and then every contract carries it |
| DappPreprocessors.MacroDepLines | dapploader/preprocessors.py:57-61 | per dependency in order: its signature, then `macro <alias>: <address>`; these exist exactly when every dependency resolves |
| DappPreprocessors.MissingDependencyFails | dapploader/preprocessors.py:59 | a dependency missing from the namespace raises KeyError naming it |
| DappPreprocessors.RegistryDepLines | dapploader/preprocessors.py:75-77 | one lookup line per dependency in order; they fail only on an unmapped alias |
| DappPreprocessors.RegistryCode | dapploader/preprocessors.py:74-80 | a sanitized contract always gets `def any():`, its lookups, then its code lines |
| DappPreprocessors.NoDependencies | dapploader/preprocessors.py:62-63 | without dependencies the code is the header then the code lines, joined |
| DappPreprocessors.ControllerByName | dapploader/preprocessors.py:89-90 | naming the controller contract selects the registry with that contract's address |
| DappPreprocessors.BuildCode | dapploader/preprocessors.py:55-63 | the inner loop computes one contract's processed code or the first error |
| DappPreprocessors.Rewrite | dapploader/preprocessors.py:54-63 | the namespace is rewritten in place in key order; the state and outcome are those of the whole run |
| DappPreprocessors.MacroPreprocessor | dapploader/preprocessors.py:52-63 | `macro_preprocessor` is the run with macros |
| DappPreprocessors.RegistryPreprocessor | dapploader/preprocessors.py:66-80 | `registry_preprocessor` is the run with registry lookups |
| DappPreprocessors.Preprocess | dapploader/preprocessors.py:83-92 | macros without a controller; otherwise registry lookups owned by the controller, or by its address if it is a contract name |
| LoaderPreprocessors.NameIndexSpec | load_contracts/preprocessors.py:20-22 | every info's name is filed under a position carrying that name, the last one with that name |
| LoaderPreprocessors.NameIndexValid | load_contracts/preprocessors.py:20-22 | each name is filed under an info that carries it |
| LoaderPreprocessors.NameIndexCovers | load_contracts/preprocessors.py:20-22 | every info's name is filed, at its position or later |
| LoaderPreprocessors.NameIndexLast | load_contracts/preprocessors.py:20-22 | no later info carries a filed name, so later infos shadow earlier ones |
| LoaderPreprocessors.FirstPassStep | load_contracts/preprocessors.py:30-43 | one more readable file keeps the first-pass invariant |
| LoaderPreprocessors.FirstPassComplete | load_contracts/preprocessors.py:30-43 | with every name done, the first pass has computed all records |
| LoaderPreprocessors.IndexValidFrame | load_contracts/preprocessors.py:57 | filing is kept when only `processed_code` changes |
| LoaderPreprocessors.SecondPassStep | load_contracts/preprocessors.py:47-57 | writing one more contract's code keeps the second-pass invariant |
| LoaderPreprocessors.SecondPassNext | load_contracts/preprocessors.py:47-57 | on the partly written list the filing holds and each contract's code is unchanged |
| LoaderPreprocessors.DepCodeFrame | load_contracts/preprocessors.py:49-54 | the macro code reads only paths and `addr` |
| LoaderPreprocessors.DepCodeErrStays | load_contracts/preprocessors.py:49-54 | once an import line has failed, later ones change nothing |
| LoaderPreprocessors.DepCodeShape | load_contracts/preprocessors.py:49-54 | per import in order: the imported signature, then `macro <alias>: <its addr>` |
| LoaderPreprocessors.UnknownImportFails | load_contracts/preprocessors.py:51 | importing a name with no signature raises KeyError naming it |
| LoaderPreprocessors.FirstPassMatchesSanitized | load_contracts/preprocessors.py:36-43 | the first pass's code lines and signature equal those the newer `sanitized` computes |
| LoaderPreprocessors.SplitLines | load_contracts/preprocessors.py:36-40 | the loop yields exactly the import lines and the code lines |
| LoaderPreprocessors.SplitText | load_contracts/preprocessors.py:32-43 | one file's record: its lines split, the code joined and signed |
| LoaderPreprocessors.BuildLoaderCode | load_contracts/preprocessors.py:48-57 | the inner loop computes one contract's processed code or the first error |
| LoaderPreprocessors.WriteCodes | load_contracts/preprocessors.py:47-57 | only `processed_code` changes; each position is untouched or written; success writes every filed contract; failure carries some contract's error |
| LoaderPreprocessors.SimplePreProcessor.constructor | load_contracts/preprocessors.py:10-22 | the info list is kept and each name is filed as the constructor's loop files it |
| LoaderPreprocessors.SimplePreProcessor.FirstPassRun | load_contracts/preprocessors.py:30-43 | with every file readable the first pass computes every record; otherwise it raises IOError for an unreadable file |
| LoaderPreprocessors.SimplePreProcessor.SecondPassRun | load_contracts/preprocessors.py:47-57 | the second pass writes each filed contract's code in place until the first error |
| LoaderPreprocessors.SimplePreProcessor.DoPreprocess | load_contracts/preprocessors.py:24-57 | an unreadable file stops everything before any write; otherwise each contract gets its code from the first pass's records, until the first error |
| LoaderCompiler.HostRunChars | load_contracts/compiler.py:21 | the dotted-quad alternative adds nothing: a host is a non-empty run of `[\w.]` |
| LoaderCompiler.DottedQuadChars | load_contracts/compiler.py:21 | a dotted quad consists of `[\w.]` characters |
| LoaderCompiler.HttpShape | load_contracts/compiler.py:21 | `http` accepts exactly host characters, ':', and one to five digits |
| LoaderCompiler.TestnetHttpAccepted | load_contracts/compiler.py:19-21 | the test network's default HTTP endpoint is accepted |
| LoaderCompiler.CreatorChoice | load_contracts/compiler.py:40-45 | a well-formed creator is kept and decodes to 20 bytes; anything else gives way to the coinbase |
| LoaderCompiler.CreatorNewlineAsWritten | load_contracts/compiler.py:40-45 | as written, an address plus newline is kept as creator and its decoding raises TypeError |
| LoaderCompiler.PathJoinBasename | load_contracts/compiler.py:56 | a file joined to its directory is the joined path's base name, filed under its set-stripped name |
| LoaderCompiler.Assigned | load_contracts/compiler.py:81-84 | entry i keeps its path and gets the address for nonce txNonce + i |
| LoaderCompiler.AssignedSpec | load_contracts/compiler.py:78-84 | paths and order are kept; entry i gets the well-formed address of the creator's creation with nonce txNonce + i; different entries hash different seeds |
| LoaderCompiler.AssignLoop | load_contracts/compiler.py:81-84 | the loop assigns exactly those addresses |
| LoaderCompiler.Compiler.constructor | load_contracts/compiler.py:40-47 | the creator is `creator` when it is a well-formed address and the coinbase otherwise; the raw creator is its hex decoding, as `CreatorOf` gives them; a well-formed choice gives 20 raw bytes; no sources yet |
| LoaderCompiler.Compiler.AddSourcePath | load_contracts/compiler.py:54-59 | an existing `.se` file is appended with its joined path; anything else changes nothing |
| LoaderCompiler.Compiler.AssignAddresses | load_contracts/compiler.py:78-84 | every entry gets its address for nonce txNonce + i in place |
| LoadContracts.IndexOf | load_contracts/load_contracts.py:120 | `index` gives the first position of the item; no position exactly when it is absent |
| LoadContracts.SelectErrStays | load_contracts/load_contracts.py:120-125 | once a node has raised, later nodes change nothing |
| LoadContracts.OptimizeDeps | load_contracts/load_contracts.py:114-127 | the nested loops compute `optimize_deps`'s list or its error |
| LoadContracts.SubsequenceMembers | load_contracts/load_contracts.py:120-125 | every element of a subsequence is an element of the whole |
| LoadContracts.SelectShape | load_contracts/load_contracts.py:118-125 | the list starts with the contract; the rest is drawn from the later nodes in order |
| LoadContracts.SelectPrefix | load_contracts/load_contracts.py:120-125 | the list only grows |
| LoadContracts.SelectFails | load_contracts/load_contracts.py:123 | the loop fails exactly when a node has no entry, and raises KeyError for the first one |
| LoadContracts.OptimizedDepsFails | load_contracts/load_contracts.py:120-123 | ValueError when the contract is not in the order; otherwise KeyError exactly for a later node without an entry |
| LoadContracts.OptimizedShape | load_contracts/load_contracts.py:118-127 | the result starts with the contract; the rest is a subsequence of the order after it |
| LoadContracts.KeptDepend | load_contracts/load_contracts.py:122-125 | every kept name is the contract or depends on it transitively |
| LoadContracts.ChainGoesBack | load_contracts/load_contracts.py:115-117 | in a compile order an import chain only goes to earlier positions |
| LoadContracts.OrderHasEntries | load_contracts/load_contracts.py:123 | in a compile order no node raises KeyError |
| LoadContracts.SelectAppends | load_contracts/load_contracts.py:123-125 | a node importing something kept is appended |
| LoadContracts.KeptStays | load_contracts/load_contracts.py:124 | once kept, a name stays |
| LoadContracts.SelectKeepsFirst | load_contracts/load_contracts.py:118 | the contract stays first |
| LoadContracts.DependentKept | load_contracts/load_contracts.py:120-125 | a dependent is in the list once the loop has visited it |
| LoadContracts.KeptBeforeImported | load_contracts/load_contracts.py:122-125 | when the loop reaches a dependent, the list already holds something it imports |
| LoadContracts.EarlierKept | load_contracts/load_contracts.py:120-125 | a dependent stays in the list as the loop moves on |
| LoadContracts.DependentInResult | load_contracts/load_contracts.py:120-127 | every later dependent ends up in the result |
| LoadContracts.OptimizedOnlyDependents | load_contracts/load_contracts.py:114-127 | everything kept is the contract or a later contract depending on it |
| LoadContracts.OptimizedAllDependents | load_contracts/load_contracts.py:114-127 | in a compile order every later dependent is kept |
| LoadContracts.OptimizedDependents | load_contracts/load_contracts.py:115-117 | in a compile order the result is exactly the contract and the later contracts importing it directly or transitively |
| LoadContracts.DecideSend | load_contracts/load_contracts.py:75-96 | no error: poll by hash; exactly the gas-limit error is resent when the estimate is below the maximum, else too costly; any other error aborts |
| LoadContracts.CodeMatchesSpec | load_contracts/load_contracts.py:103 | a `0x<code>` reply matches exactly when the code is non-empty and occurs in the submitted code |
| LoadContracts.ShortReplyMatches | load_contracts/load_contracts.py:103 | a reply shorter than two characters passes the check |
| LoadContracts.PollForContract | load_contracts/load_contracts.py:97-105 | the loop returns the address at the first query that finds the contract, within the try limit; no address exactly when all tries are used |

## Left out

- RPC traffic, `time.sleep`, `raw_input`, `print`, JSON dumps and `sys.exit` are left out. Replies and the creator's transaction count become parameters. Receipts and code replies are functions of the query number.
- The Keccak-256 hash and `serpent.mk_signature` are foreign code. They are function parameters (`Hasher`, `Signer`).
- `Tester(code).gas_cost`: `DecideSend` takes the estimate as a parameter. So does `rpc.MAXGAS`.
- Argument parsing, RPC-client selection by socket test, and the directory walk of `get_source_paths` are not modelled. `add_source_path` takes `os.path.isfile` as a parameter, and file contents are a map from path to text.
- `compile_dapp`, `get_contract_info`, `preprocess_code` and `main` have empty or missing bodies, and are not modelled.
- The unfinished `Preprocessor` and `MacroPreprocessor` classes of `dapploader/preprocessors.py` (lines 12-50) are not modelled; line 36 does not parse.
- The commented-out copies of `broadcast_code` and `optimize_deps` are not modelled separately. These are `dapploader/compiler.py` lines 38-95 and `load_contracts/compiler.py` lines 92-149.
- The duplicate `Compiler` class in `load_contracts/load_contracts.py` (lines 19-69) is not modelled. The class in `load_contracts/compiler.py` is.
- The source's own slips are modelled as evidently intended:
  - `load_contracts/compiler.py` line 24 is a syntax error;
  - lines 35 and 40 use the unqualified names `http` and `ethaddress`;
  - line 80 reads `self.rpc`;
  - the transaction count, a hex string in the RPC reply, is taken as an integer.
- `LoadContracts.DecideSend`: the resend recursion and the abort dump are left out. The resend on line 81 passes the wrong arguments. Line 79 estimates the gas of the error code `code`, which shadows the contract code, so the estimate is a parameter.
- Line 106 of `load_contracts/load_contracts.py` asks whether to try again. That prompt and the retry are left out.
- `load_contracts/preprocessors.py` line 47 iterates `self.name_to_info` without `.items()`, and line 56 indexes the string `sanitized_code` by name. The model follows the evident intent: iterate the items, and extend with the name's code lines.
- The three first-pass dictionaries of `do_preprocess` have the same keys. They are kept as one map from name to a record.
- Dictionary iteration in `do_preprocess` is in arbitrary order (any element may be picked next), so contracts are written in any order. The namespace keeps insertion order, as an `OrderedDict` does.
- `dapploader` is read with Python 3.7+ dictionary semantics. `sanitized` builds `dependencies` as a plain dict (`dapploader/compiler.py` line 10), and the preprocessors iterate it (`dapploader/preprocessors.py` lines 57 and 75).
- `DappPreprocessors.DepLines`, `DappPreprocessors.MacroDepLines` and `DappPreprocessors.RegistryDepLines` emit dependency lines in insertion order of the aliases. Under Python 2 a plain dict's order is arbitrary, and that order is not promised.
- `dapploader/namespace.py` lines 8-9 never call `OrderedDict.__init__`. Under Python 2.7's pure-Python `OrderedDict`, the assignment on line 16 would then raise AttributeError. The model follows the evident intent: a new namespace is an empty ordered map.
- `dapploader/compiler.py` uses `re` (line 2) and `serpent` (line 20) without importing them. The model treats both as imported.
- `LoaderCompiler.Compiler.constructor` exists only when `CreatorOf` succeeds. The TypeError that `__init__` raises on an undecodable creator is `CreatorOf`'s error result.
- `LoaderCompiler.Compiler.AssignAddresses` requires a 20-byte raw creator. That holds whenever the chosen creator is a well-formed address (constructor and `LoaderCompiler.CreatorChoice`). A coinbase that decodes to another length is not modelled, because the creation seed is modelled for 20-byte accounts only.
- `LoaderPreprocessors.SimplePreProcessor.SecondPassRun` computes the written list as a value and stores it once. The final state is the same as writing entry by entry, and the invariant is proved on that list.
- `LoaderCompiler.Compiler.AssignAddresses` computes the written list the same way.
- In `load_contracts`, the info dictionaries are shared between `code_info` and `name_to_info`. The model keeps one list and files each name under a position, so aliasing is not modelled beyond that.
- `load_contracts/compiler.py` stores `address`, but `load_contracts/preprocessors.py` reads `addr`. The model keeps the two fields apart, as the source does.
- `LoaderCompiler.AssignedSpec`: which digest bytes an address names is stated separately, by `Addresses.ContractAddressDecodes`.
- RLP long forms (payloads over 55 bytes) are not modelled. Creators are 20 bytes and nonces are below 2^64, so they never occur.
- `DappPreprocessors.LookupLine`: the second `str.format` re-reads braces in the controller text. The model uses concatenation, which gives the same text for controllers without braces.
- The poll loop's code test `check[2:] in evm` is modelled as a substring test on the reply text.
- Python's `re` is not modelled in general. Only the two patterns the loader uses are written out as predicates.

## Findings

| source | as written | input that shows it | evidently intended | confidence | as-written member | corrected member |
|---|---|---|---|---|---|---|
| load_contracts/compiler.py:40-45 | `ethaddress.match(creator)` with `'^0x[0-9a-f]{40}$'`; `$` also matches before a final newline, so the address plus a newline is kept as creator and `creator_address[2:].decode('hex')` raises TypeError on the odd length | `"0x" + 40 * "0" + "\n"` | only exact addresses are kept; anything else falls back to the coinbase | not executed | LoaderCompiler.CreatorNewlineAsWritten | LoaderCompiler.CreatorChoice |
| dapploader/compiler.py:2 | `ETH_ADDR = re.compile('^0x[0-9a-f]{40}$')` accepts the same trailing newline | `"0x" + 40 * "0" + "\n"` | the pattern accepts exactly well-formed addresses, which always decode to 20 bytes | not executed | Addresses.EthAddrPatternAcceptsNewline | Addresses.EthAddressDecodes |
