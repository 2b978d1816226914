/** `load_contracts/preprocessors.py`: the older loader's `SimplePreProcessor`
    files each contract under the name derived from its path, then in a
    first pass reads every file and computes its code lines, import lines and
    signature, and in a second pass writes each contract's `processed_code`:
    per import, the imported contract's signature and a `macro` line naming
    its `addr`, then the code lines.

    The info dictionaries are shared between `code_info` and `name_to_info`;
    the model keeps them once, in `codeInfo`, and files each name under the
    position of its info. */
module LoaderPreprocessors {
  import opened Wrappers
  import opened Text
  import opened Imports
  import opened Namespaces
  import opened DappCompiler
  import opened DappPreprocessors

  /** One info dictionary: `path`, `addr` when present, `processed_code` once written. */
  datatype CodeInfo = CodeInfo(path: string, addr: Option<string>, processedCode: Option<string>)

  /** `name_to_info` after the constructor's loop: each name filed under the
      position of the last info with that name. */
  function NameIndex(infos: seq<CodeInfo>): (r: map<string, nat>)
  {
    if infos == [] then map[]
    else
      var n := |infos| - 1;
      NameIndex(infos[..n])[ContractName(infos[n].path) := n]
  }

  /** Every name is filed under a position of the list. */
  predicate IndexInRange(infos: seq<CodeInfo>, index: map<string, nat>) {
    forall name :: name in index ==> index[name] < |infos|
  }

  /** Every name is filed under an info that carries it. */
  predicate IndexValid(infos: seq<CodeInfo>, index: map<string, nat>) {
    IndexInRange(infos, index) && forall name :: name in index ==> ContractName(infos[index[name]].path) == name
  }

  /** Every info's name is filed, under that info or a later one with the same
      name; so an earlier info with the same name is shadowed. */
  lemma {:induction false} NameIndexSpec(infos: seq<CodeInfo>)
    ensures var r := NameIndex(infos);
      && IndexValid(infos, r)
      && (forall i :: 0 <= i < |infos| ==> ContractName(infos[i].path) in r && i <= r[ContractName(infos[i].path)])
      && (forall name :: name in r ==> forall j :: r[name] < j < |infos| ==> ContractName(infos[j].path) != name)
  {
    NameIndexValid(infos);
    NameIndexCovers(infos);
    NameIndexLast(infos);
  }

  lemma {:induction false} NameIndexValid(infos: seq<CodeInfo>)
    ensures IndexValid(infos, NameIndex(infos))
  {
    if infos != [] {
      var n := |infos| - 1;
      var init := infos[..n];
      NameIndexValid(init);
      var r := NameIndex(infos);
      forall name | name in r
        ensures r[name] < |infos| && ContractName(infos[r[name]].path) == name
      {
        if name != ContractName(infos[n].path) {
          assert r[name] == NameIndex(init)[name] && infos[r[name]] == init[r[name]];
        }
      }
    }
  }

  lemma {:induction false} NameIndexCovers(infos: seq<CodeInfo>)
    ensures var r := NameIndex(infos);
      forall i :: 0 <= i < |infos| ==> ContractName(infos[i].path) in r && i <= r[ContractName(infos[i].path)]
  {
    if infos != [] {
      var n := |infos| - 1;
      var init := infos[..n];
      NameIndexCovers(init);
      var r := NameIndex(infos);
      forall i | 0 <= i < |infos|
        ensures ContractName(infos[i].path) in r && i <= r[ContractName(infos[i].path)]
      {
        if i < n && ContractName(infos[i].path) != ContractName(infos[n].path) {
          assert infos[i] == init[i];
        }
      }
    }
  }

  lemma {:induction false} NameIndexLast(infos: seq<CodeInfo>)
    ensures forall name, j :: name in NameIndex(infos) && NameIndex(infos)[name] < j < |infos| ==> ContractName(infos[j].path) != name
  {
    if infos != [] {
      var n := |infos| - 1;
      var init := infos[..n];
      NameIndexLast(init);
      NameIndexValid(init);
      var r := NameIndex(infos);
      forall name, j | name in r && r[name] < j < |infos|
        ensures ContractName(infos[j].path) != name
      {
        if name != ContractName(infos[n].path) {
          var prev := NameIndex(init);
          assert name in prev && r[name] == prev[name];
          if j < n {
            assert prev[name] < j < |init|;
            assert ContractName(init[j].path) != name;
            assert infos[j] == init[j];
          }
        }
      }
    }
  }

  /** Every filed info's file can be read. */
  predicate AllReadable(infos: seq<CodeInfo>, index: map<string, nat>, files: map<string, string>)
    requires IndexInRange(infos, index)
  {
    forall name :: name in index ==> infos[index[name]].path in files
  }

  /** What the first pass records for one name: its entries in the
      `dependencies`, `sanitized` and `signatures` dictionaries. */
  datatype FileSplit = FileSplit(imports: seq<string>, code: seq<string>, signature: string)

  /** The three dictionaries of the first pass, kept as one map from name to
      the three entries (they always have the same keys). */
  type FirstPass = map<string, FileSplit>

  /** The first pass's record for a file's text. */
  function SplitFile(text: string, sign: Signer): FileSplit {
    var lines := SplitOn(text, "\n");
    FileSplit(ImportLines(lines), CodeLines(lines), sign(Join("\n", CodeLines(lines))))
  }

  /** What the first pass computes: per name, the import lines, the other
      lines and the signature of the other lines joined with newlines. */
  function FirstPassOf(infos: seq<CodeInfo>, index: map<string, nat>, files: map<string, string>, sign: Signer): FirstPass
    requires IndexInRange(infos, index) && AllReadable(infos, index, files)
  {
    map name | name in index :: SplitFile(files[infos[index[name]].path], sign)
  }

  /** The first pass's invariant: the names done so far have their file's
      record. */
  ghost predicate FirstPassSoFar(infos: seq<CodeInfo>, index: map<string, nat>, files: map<string, string>, sign: Signer,
                                 done: set<string>, fp: FirstPass)
    requires IndexInRange(infos, index)
  {
    && done <= index.Keys && fp.Keys == done
    && forall n :: n in done ==> infos[index[n]].path in files && fp[n] == SplitFile(files[infos[index[n]].path], sign)
  }

  /** One more readable name keeps the first pass's invariant. */
  lemma FirstPassStep(infos: seq<CodeInfo>, index: map<string, nat>, files: map<string, string>, sign: Signer,
                      todo: set<string>, fp: FirstPass, name: string)
    requires IndexInRange(infos, index) && todo <= index.Keys && name in todo
    requires FirstPassSoFar(infos, index, files, sign, index.Keys - todo, fp) && infos[index[name]].path in files
    ensures FirstPassSoFar(infos, index, files, sign, index.Keys - (todo - {name}), fp[name := SplitFile(files[infos[index[name]].path], sign)])
  {
    var done := index.Keys - todo;
    assert index.Keys - (todo - {name}) == done + {name};
    var next := fp[name := SplitFile(files[infos[index[name]].path], sign)];
    forall n | n in done + {name}
      ensures infos[index[n]].path in files && next[n] == SplitFile(files[infos[index[n]].path], sign)
    {
      if n != name {
        assert n in done && next[n] == fp[n];
      }
    }
  }

  /** With every name done, the first pass has computed `FirstPassOf`. */
  lemma FirstPassComplete(infos: seq<CodeInfo>, index: map<string, nat>, files: map<string, string>, sign: Signer, fp: FirstPass)
    requires IndexInRange(infos, index) && FirstPassSoFar(infos, index, files, sign, index.Keys, fp)
    ensures AllReadable(infos, index, files) && fp == FirstPassOf(infos, index, files, sign)
  {
  }

  /** The macro code for the given import lines, or the error raised: an
      import that does not unpack, an unknown name (no signature), or an info
      without `addr`. */
  function DepCode(infos: seq<CodeInfo>, index: map<string, nat>, fp: FirstPass, deps: seq<string>): Result<seq<string>>
    requires IndexInRange(infos, index)
  {
    if deps == [] then Ok([])
    else
      match DepCode(infos, index, fp, deps[..|deps| - 1])
      case Err(e) => Err(e)
      case Ok(code) =>
        var dep := deps[|deps| - 1];
        match ParseImport(dep)
        case None => Err(UnpackError(dep))
        case Some((depName, macro)) =>
          if depName !in fp || depName !in index then Err(KeyError(depName))
          else
            match infos[index[depName]].addr
            case None => Err(KeyError("addr"))
            case Some(addr) => Ok(code + [fp[depName].signature, MacroLine(macro, addr)])
  }

  /** The `processed_code` of the contract filed under `name`. */
  function LoaderCode(infos: seq<CodeInfo>, index: map<string, nat>, fp: FirstPass, name: string): Result<string>
    requires IndexInRange(infos, index) && name in fp
  {
    match DepCode(infos, index, fp, fp[name].imports)
    case Err(e) => Err(e)
    case Ok(code) => Ok(Join("\n", code + fp[name].code))
  }

  /** Position `i` holds the processed code of the name it is filed under. */
  ghost predicate Written(infos: seq<CodeInfo>, index: map<string, nat>, fp: FirstPass, i: nat, after: CodeInfo)
    requires IndexValid(infos, index) && i < |infos|
  {
    var name := ContractName(infos[i].path);
    && name in index && index[name] == i && name in fp
    && LoaderCode(infos, index, fp, name).Ok?
    && after == infos[i].(processedCode := Some(LoaderCode(infos, index, fp, name).value))
  }

  /** `b` differs from `a` at most in `processed_code`. */
  ghost predicate OnlyCodeDiffers(a: seq<CodeInfo>, b: seq<CodeInfo>) {
    |a| == |b| && forall i :: 0 <= i < |a| ==> b[i] == a[i].(processedCode := b[i].processedCode)
  }

  /** Filing is kept when only `processed_code` changes. */
  lemma IndexValidFrame(a: seq<CodeInfo>, b: seq<CodeInfo>, index: map<string, nat>)
    requires IndexValid(a, index) && OnlyCodeDiffers(a, b)
    ensures IndexValid(b, index)
  {
    forall name | name in index
      ensures ContractName(b[index[name]].path) == name
    {
      assert b[index[name]].path == a[index[name]].path;
    }
  }

  /** The second pass's invariant: the names still to do are untouched, the
      names done are written, and every position is one or the other. */
  ghost predicate SecondPassSoFar(infos: seq<CodeInfo>, index: map<string, nat>, fp: FirstPass, todo: set<string>, cur: seq<CodeInfo>)
    requires IndexValid(infos, index)
  {
    && todo <= index.Keys && OnlyCodeDiffers(infos, cur)
    && (forall i :: 0 <= i < |cur| ==> cur[i] == infos[i] || Written(infos, index, fp, i, cur[i]))
    && (forall n :: n in todo ==> cur[index[n]] == infos[index[n]])
    && (forall n :: n in index && n !in todo ==> Written(infos, index, fp, index[n], cur[index[n]]))
  }

  /** Writing the code of one more name keeps the second pass's invariant. */
  lemma SecondPassStep(infos: seq<CodeInfo>, index: map<string, nat>, fp: FirstPass, todo: set<string>, cur: seq<CodeInfo>, name: string)
    requires IndexValid(infos, index) && SecondPassSoFar(infos, index, fp, todo, cur)
    requires name in todo && name in fp && LoaderCode(infos, index, fp, name).Ok?
    ensures var i := index[name];
      SecondPassSoFar(infos, index, fp, todo - {name}, cur[i := cur[i].(processedCode := Some(LoaderCode(infos, index, fp, name).value))])
  {
    var i := index[name];
    var next := cur[i := cur[i].(processedCode := Some(LoaderCode(infos, index, fp, name).value))];
    assert Written(infos, index, fp, i, next[i]);
    forall n | n in todo - {name}
      ensures next[index[n]] == infos[index[n]]
    {
      assert ContractName(infos[index[n]].path) == n;
    }
  }

  /** What the second pass relies on at each contract: the filing still
      holds on the partly written list, the code built from it is the code
      built from the original list, and writing it keeps the invariant. */
  lemma SecondPassNext(infos: seq<CodeInfo>, index: map<string, nat>, fp: FirstPass, todo: set<string>, cur: seq<CodeInfo>, name: string)
    requires IndexValid(infos, index) && SecondPassSoFar(infos, index, fp, todo, cur)
    requires name in todo && fp.Keys == index.Keys
    ensures name in fp && IndexValid(cur, index) && index[name] < |cur|
    ensures LoaderCode(cur, index, fp, name) == LoaderCode(infos, index, fp, name)
    ensures LoaderCode(infos, index, fp, name).Ok? ==>
      var i := index[name];
      SecondPassSoFar(infos, index, fp, todo - {name}, cur[i := cur[i].(processedCode := Some(LoaderCode(infos, index, fp, name).value))])
  {
    IndexValidFrame(infos, cur, index);
    DepCodeFrame(infos, cur, index, fp, fp[name].imports);
    if LoaderCode(infos, index, fp, name).Ok? {
      SecondPassStep(infos, index, fp, todo, cur, name);
    }
  }

  /** The macro code reads only the paths and `addr` of the infos. */
  lemma {:induction false} DepCodeFrame(a: seq<CodeInfo>, b: seq<CodeInfo>, index: map<string, nat>, fp: FirstPass, deps: seq<string>)
    requires IndexInRange(a, index) && OnlyCodeDiffers(a, b)
    ensures IndexInRange(b, index)
    ensures DepCode(a, index, fp, deps) == DepCode(b, index, fp, deps)
  {
    if deps != [] {
      DepCodeFrame(a, b, index, fp, deps[..|deps| - 1]);
    }
  }

  /** Once an import line has failed, the later ones change nothing. */
  lemma {:induction false} DepCodeErrStays(infos: seq<CodeInfo>, index: map<string, nat>, fp: FirstPass, deps: seq<string>, i: nat)
    requires IndexInRange(infos, index) && i <= |deps| && DepCode(infos, index, fp, deps[..i]).Err?
    ensures DepCode(infos, index, fp, deps) == DepCode(infos, index, fp, deps[..i])
    decreases |deps| - i
  {
    if i < |deps| {
      assert deps[..i + 1][..i] == deps[..i];
      DepCodeErrStays(infos, index, fp, deps, i + 1);
    } else {
      assert deps[..i] == deps;
    }
  }

  /** The macro code: per import line in order, the imported contract's
      signature and then `macro <alias>: <its addr>`. */
  lemma {:induction false} DepCodeShape(infos: seq<CodeInfo>, index: map<string, nat>, fp: FirstPass, deps: seq<string>)
    requires IndexInRange(infos, index) && DepCode(infos, index, fp, deps).Ok?
    ensures var code := DepCode(infos, index, fp, deps).value;
      && |code| == 2 * |deps|
      && forall i :: 0 <= i < |deps| ==>
           && ParseImport(deps[i]).Some?
           && var (depName, macro) := ParseImport(deps[i]).value;
           && depName in fp && depName in index && infos[index[depName]].addr.Some?
           && code[2 * i] == fp[depName].signature
           && code[2 * i + 1] == MacroLine(macro, infos[index[depName]].addr.value)
  {
    if deps != [] {
      var n := |deps| - 1;
      var init := deps[..n];
      DepCodeShape(infos, index, fp, init);
      var code := DepCode(infos, index, fp, deps).value;
      assert code[..2 * n] == DepCode(infos, index, fp, init).value;
      assert forall i :: 0 <= i < n ==> init[i] == deps[i];
    }
  }

  /** Importing a name that has no signature (no filed contract) fails with
      a KeyError naming it, once the import lines before it went through. */
  lemma UnknownImportFails(infos: seq<CodeInfo>, index: map<string, nat>, fp: FirstPass, deps: seq<string>, k: nat)
    requires IndexInRange(infos, index) && k < |deps|
    requires DepCode(infos, index, fp, deps[..k]).Ok?
    requires ParseImport(deps[k]).Some? && ParseImport(deps[k]).value.0 !in fp
    ensures DepCode(infos, index, fp, deps) == Err(KeyError(ParseImport(deps[k]).value.0))
  {
    assert deps[..k + 1][..k] == deps[..k];
    DepCodeErrStays(infos, index, fp, deps, k + 1);
  }

  /** The first pass agrees with the newer loader's `sanitized`: for a file
      whose imports all parse, its code lines and signature are the
      `temp_code` and `signature` that `sanitized` computes for the same lines. */
  lemma FirstPassMatchesSanitized(infos: seq<CodeInfo>, index: map<string, nat>, files: map<string, string>, sign: Signer, name: string)
    requires IndexValid(infos, index) && AllReadable(infos, index, files) && name in index
    requires var lines := SplitOn(files[infos[index[name]].path], "\n");
      SanitizedOf(ContractInfo(infos[index[name]].path, "", Some(lines), None, None), sign).Ok?
    ensures var fp := FirstPassOf(infos, index, files, sign);
      var lines := SplitOn(files[infos[index[name]].path], "\n");
      var s := SanitizedOf(ContractInfo(infos[index[name]].path, "", Some(lines), None, None), sign).value;
      && fp[name].code == s.tempCode
      && fp[name].signature == s.signature
      && |fp[name].imports| + |fp[name].code| == |lines|
  {
    var lines := SplitOn(files[infos[index[name]].path], "\n");
    SplitImportsCode(lines);
    LinesPartitioned(lines);
  }

  /** The first pass's inner loop: the lines split into imports and code. */
  method SplitLines(lines: seq<string>) returns (imports: seq<string>, code: seq<string>)
    ensures imports == ImportLines(lines) && code == CodeLines(lines)
  {
    imports, code := [], [];
    var i := 0;
    while i < |lines|
      invariant 0 <= i <= |lines|
      invariant imports == ImportLines(lines[..i]) && code == CodeLines(lines[..i])
    {
      assert lines[..i + 1][..i] == lines[..i];
      if StartsWith(lines[i], "import") {
        imports := imports + [lines[i]];
      } else {
        code := code + [lines[i]];
      }
      i := i + 1;
    }
    assert lines[..i] == lines;
  }

  /** The first pass's work on one file: its lines split, and the code
      lines joined and signed. */
  method SplitText(text: string, sign: Signer) returns (r: FileSplit)
    ensures r == SplitFile(text, sign)
  {
    var originalCode := SplitOn(text, "\n");
    var imports, code := SplitLines(originalCode);
    r := FileSplit(imports, code, sign(Join("\n", code)));
  }

  /** The second pass's inner loop for one contract. */
  method BuildLoaderCode(infos: seq<CodeInfo>, index: map<string, nat>, fp: FirstPass, name: string) returns (r: Result<string>)
    requires IndexInRange(infos, index) && name in fp
    ensures r == LoaderCode(infos, index, fp, name)
  {
    var deps := fp[name].imports;
    var depCode: seq<string> := [];
    var i := 0;
    while i < |deps|
      invariant 0 <= i <= |deps|
      invariant DepCode(infos, index, fp, deps[..i]) == Ok(depCode)
    {
      var dep := deps[i];
      assert deps[..i + 1][..i] == deps[..i];
      var parsed := ParseImport(dep);
      if parsed.None? {
        DepCodeErrStays(infos, index, fp, deps, i + 1);
        return Err(UnpackError(dep));
      }
      var (depName, macro) := parsed.value;
      if depName !in fp || depName !in index {
        DepCodeErrStays(infos, index, fp, deps, i + 1);
        return Err(KeyError(depName));
      }
      var sig := fp[depName].signature;
      var addr := infos[index[depName]].addr;
      if addr.None? {
        DepCodeErrStays(infos, index, fp, deps, i + 1);
        return Err(KeyError("addr"));
      }
      depCode := depCode + [sig, MacroLine(macro, addr.value)];
      i := i + 1;
    }
    assert deps[..i] == deps;
    r := Ok(Join("\n", depCode + fp[name].code));
  }

  /** The second pass's loop over the info list: each filed contract, in the
      map's (arbitrary) order, gets its `processed_code`, until the first
      contract whose code cannot be built; the list as the loop leaves it. */
  method WriteCodes(infos: seq<CodeInfo>, index: map<string, nat>, fp: FirstPass) returns (cur: seq<CodeInfo>, r: Outcome)
    requires IndexValid(infos, index) && fp.Keys == index.Keys
    ensures IndexValid(cur, index) && OnlyCodeDiffers(infos, cur)
    ensures forall i :: 0 <= i < |cur| ==> cur[i] == infos[i] || Written(infos, index, fp, i, cur[i])
    ensures r.Pass? ==> forall name :: name in index ==> Written(infos, index, fp, index[name], cur[index[name]])
    ensures r.Fail? ==> exists name :: name in index && LoaderCode(infos, index, fp, name) == Err(r.error)
  {
    cur := infos;
    var todo := index.Keys;
    while todo != {}
      invariant SecondPassSoFar(infos, index, fp, todo, cur)
      decreases |todo|
    {
      var name :| name in todo;
      SecondPassNext(infos, index, fp, todo, cur, name);
      var code := BuildLoaderCode(cur, index, fp, name);
      if code.Err? {
        return cur, Fail(code.error);
      }
      var idx := index[name];
      cur := cur[idx := cur[idx].(processedCode := Some(code.value))];
      todo := todo - {name};
    }
    IndexValidFrame(infos, cur, index);
    r := Pass;
  }

  class SimplePreProcessor {
    const buildDir: string
    var codeInfo: seq<CodeInfo>
    var nameToIndex: map<string, nat>

    ghost predicate Valid()
      reads this
    {
      IndexValid(codeInfo, nameToIndex)
    }

    /** `SimplePreProcessor(code_info, build_dir)`. */
    constructor (codeInfo: seq<CodeInfo>, buildDir: string)
      ensures Valid() && this.codeInfo == codeInfo && this.buildDir == buildDir
      ensures nameToIndex == NameIndex(codeInfo)
    {
      var index: map<string, nat> := map[];
      var i := 0;
      while i < |codeInfo|
        invariant 0 <= i <= |codeInfo|
        invariant index == NameIndex(codeInfo[..i])
      {
        assert codeInfo[..i + 1][..i] == codeInfo[..i];
        var name := ContractName(codeInfo[i].path);
        index := index[name := i];
        i := i + 1;
      }
      assert codeInfo[..i] == codeInfo;
      NameIndexSpec(codeInfo);
      this.buildDir := buildDir;
      this.codeInfo := codeInfo;
      nameToIndex := index;
    }

    /** The first pass: reads every filed contract's file, in the map's
        (arbitrary) order, and fails on the first that cannot be read. */
    method FirstPassRun(files: map<string, string>, sign: Signer) returns (r: Result<FirstPass>)
      requires Valid()
      ensures AllReadable(codeInfo, nameToIndex, files) ==> r == Ok(FirstPassOf(codeInfo, nameToIndex, files, sign))
      ensures !AllReadable(codeInfo, nameToIndex, files) ==>
        r.Err? && exists name :: (name in nameToIndex && codeInfo[nameToIndex[name]].path !in files &&
          r.error == IOError(codeInfo[nameToIndex[name]].path))
    {
      var infos, index := codeInfo, nameToIndex;
      var fp: FirstPass := map[];
      var todo := index.Keys;
      while todo != {}
        invariant todo <= index.Keys
        invariant FirstPassSoFar(infos, index, files, sign, index.Keys - todo, fp)
        decreases |todo|
      {
        var name :| name in todo;
        var path := infos[index[name]].path;
        if path !in files {
          assert !AllReadable(infos, index, files);
          return Err(IOError(path));
        }
        var record := SplitText(files[path], sign);
        FirstPassStep(infos, index, files, sign, todo, fp, name);
        fp := fp[name := record];
        todo := todo - {name};
      }
      FirstPassComplete(infos, index, files, sign, fp);
      r := Ok(fp);
    }

    /** The second pass: writes each filed contract's `processed_code` from
        the first pass's records, and stops at the first contract whose code
        cannot be built. */
    method SecondPassRun(fp: FirstPass) returns (r: Outcome)
      requires Valid() && fp.Keys == nameToIndex.Keys
      modifies this
      ensures Valid() && nameToIndex == old(nameToIndex) && OnlyCodeDiffers(old(codeInfo), codeInfo)
      ensures forall i :: 0 <= i < |codeInfo| ==> codeInfo[i] == old(codeInfo)[i] || Written(old(codeInfo), nameToIndex, fp, i, codeInfo[i])
      ensures r.Pass? ==> forall name :: name in nameToIndex ==> Written(old(codeInfo), nameToIndex, fp, nameToIndex[name], codeInfo[nameToIndex[name]])
      ensures r.Fail? ==> exists name :: name in nameToIndex && LoaderCode(old(codeInfo), nameToIndex, fp, name) == Err(r.error)
    {
      var written;
      written, r := WriteCodes(codeInfo, nameToIndex, fp);
      codeInfo := written;
    }

    /** `do_preprocess()`, with the file contents given as `files` (path to
        text).  All signatures are computed before any code is written; then
        each filed contract gets its `processed_code`, until the first error. */
    method DoPreprocess(files: map<string, string>, sign: Signer) returns (r: Outcome)
      requires Valid()
      modifies this
      ensures Valid() && nameToIndex == old(nameToIndex) && OnlyCodeDiffers(old(codeInfo), codeInfo)
      ensures !AllReadable(old(codeInfo), nameToIndex, files) ==>
        && codeInfo == old(codeInfo) && r.Fail?
        && exists name :: name in nameToIndex && old(codeInfo)[nameToIndex[name]].path !in files
             && r.error == IOError(old(codeInfo)[nameToIndex[name]].path)
      ensures AllReadable(old(codeInfo), nameToIndex, files) ==>
        var fp := FirstPassOf(old(codeInfo), nameToIndex, files, sign);
        && (forall i :: 0 <= i < |codeInfo| ==> codeInfo[i] == old(codeInfo)[i] || Written(old(codeInfo), nameToIndex, fp, i, codeInfo[i]))
        && (r.Pass? ==> forall name :: name in nameToIndex ==> Written(old(codeInfo), nameToIndex, fp, nameToIndex[name], codeInfo[nameToIndex[name]]))
        && (r.Fail? ==> exists name :: name in nameToIndex && LoaderCode(old(codeInfo), nameToIndex, fp, name) == Err(r.error))
    {
      var first := FirstPassRun(files, sign);
      if first.Err? {
        assert OnlyCodeDiffers(codeInfo, codeInfo);
        return Fail(first.error);
      }
      r := SecondPassRun(first.value);
    }
  }
}
