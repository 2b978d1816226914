/** `dapploader/compiler.py`: `sanitized` readies a contract's raw lines for
    preprocessing, separating the `import <name> as <alias>` lines (which
    become the alias-to-name `dependencies`) from the remaining code
    (`temp_code`), whose Serpent signature it records. */
module DappCompiler {
  import opened Wrappers
  import opened Text
  import opened Imports
  import opened OrderedMaps
  import opened Namespaces

  /** `serpent.mk_signature`, a foreign function the model does not compute. */
  type Signer = string -> string

  /** The dependencies and code lines that `sanitized` has collected after the
      given lines, or the error raised by the first import line that does not
      split into a name and an alias. */
  function SplitImports(lines: seq<string>): Result<(OrderedMap<string>, seq<string>)>
  {
    if lines == [] then Ok((Empty(), []))
    else
      var line := lines[|lines| - 1];
      match SplitImports(lines[..|lines| - 1])
      case Err(e) => Err(e)
      case Ok((deps, temp)) =>
        if IsImportLine(line) then
          match ParseImport(line)
          case None => Err(UnpackError(line))
          case Some((name, alias)) => Ok((deps.Set(alias, name), temp))
        else Ok((deps, temp + [line]))
  }

  /** The dictionary `sanitized(contract_info)` returns. */
  function SanitizedOf(info: ContractInfo, sign: Signer): Result<Sanitized> {
    match info.rawCode
    case None => Err(KeyError("raw_code"))
    case Some(raw) =>
      match SplitImports(raw)
      case Err(e) => Err(e)
      case Ok((deps, temp)) => Ok(Sanitized(deps, temp, sign(Join("\n", temp))))
  }

  /** Once a prefix of the lines has failed, the whole does, with the same error. */
  lemma {:induction false} SplitImportsErrStays(lines: seq<string>, i: nat)
    requires i <= |lines| && SplitImports(lines[..i]).Err?
    ensures SplitImports(lines) == SplitImports(lines[..i])
    decreases |lines| - i
  {
    if i < |lines| {
      assert lines[..i + 1][..i] == lines[..i];
      SplitImportsErrStays(lines, i + 1);
    } else {
      assert lines[..i] == lines;
    }
  }

  /** `sanitized(contract_info)`. */
  method Sanitize(info: ContractInfo, sign: Signer) returns (r: Result<Sanitized>)
    ensures r == SanitizedOf(info, sign)
  {
    if info.rawCode.None? {
      return Err(KeyError("raw_code"));
    }
    var raw := info.rawCode.value;
    var dependencies: OrderedMap<string> := Empty();
    var tempCode: seq<string> := [];
    var i := 0;
    while i < |raw|
      invariant 0 <= i <= |raw|
      invariant SplitImports(raw[..i]) == Ok((dependencies, tempCode))
    {
      var line := raw[i];
      assert raw[..i + 1][..i] == raw[..i];
      if IsImportLine(line) {
        var parsed := ParseImport(line);
        if parsed.None? {
          SplitImportsErrStays(raw, i + 1);
          return Err(UnpackError(line));
        }
        var (name, varName) := parsed.value;
        dependencies := dependencies.Set(varName, name);
      } else {
        tempCode := tempCode + [line];
      }
      i := i + 1;
    }
    assert raw[..i] == raw;
    r := Ok(Sanitized(dependencies, tempCode, sign(Join("\n", tempCode))));
  }

  /** The import lines of `lines` all split into a name and an alias. */
  predicate ImportsParse(lines: seq<string>) {
    forall k :: 0 <= k < |lines| && IsImportLine(lines[k]) ==> ParseImport(lines[k]).Some?
  }

  /** `sanitized` fails exactly when some import line does not split into a
      name and an alias, and then it reports the first such line. */
  lemma {:induction false} SplitImportsFails(lines: seq<string>)
    ensures SplitImports(lines).Ok? <==> ImportsParse(lines)
    ensures SplitImports(lines).Err? ==>
      exists k :: 0 <= k < |lines| && IsImportLine(lines[k]) && ParseImport(lines[k]).None?
        && SplitImports(lines).error == UnpackError(lines[k])
        && ImportsParse(lines[..k])
  {
    if lines != [] {
      var n := |lines| - 1;
      var init := lines[..n];
      SplitImportsFails(init);
      assert forall k :: 0 <= k < n ==> init[k] == lines[k];
      if SplitImports(init).Err? {
        var k :| 0 <= k < n && IsImportLine(init[k]) && ParseImport(init[k]).None?
          && SplitImports(init).error == UnpackError(init[k]) && ImportsParse(init[..k]);
        assert init[..k] == lines[..k];
      } else if IsImportLine(lines[n]) && ParseImport(lines[n]).None? {
        assert lines[..n] == init;
      }
    }
  }

  /** `temp_code` is exactly the lines that do not start with `import`, in
      their original order; import lines never reach it. */
  lemma {:induction false} SplitImportsCode(lines: seq<string>)
    requires SplitImports(lines).Ok?
    ensures SplitImports(lines).value.1 == CodeLines(lines)
  {
    if lines != [] {
      SplitImportsCode(lines[..|lines| - 1]);
    }
  }

  /** Import line `k` is the last one that names `alias`, and it maps it to `name`. */
  predicate LastImportOf(lines: seq<string>, k: nat, alias: string, name: string) {
    && k < |lines| && IsImportLine(lines[k]) && ParseImport(lines[k]) == Some((name, alias))
    && forall j :: k < j < |lines| && IsImportLine(lines[j]) && ParseImport(lines[j]).Some? ==>
         ParseImport(lines[j]).value.1 != alias
  }

  /** The dependencies hold one entry per alias that some import line gives,
      mapped to the name given by the LAST import with that alias (a later
      import overwrites an earlier one), and nothing else. */
  lemma SplitImportsDeps(lines: seq<string>)
    requires SplitImports(lines).Ok?
    ensures var deps := SplitImports(lines).value.0;
      && deps.Valid()
      && (forall alias :: alias in deps.entries ==> exists k :: LastImportOf(lines, k, alias, deps.entries[alias]))
      && (forall k :: 0 <= k < |lines| && IsImportLine(lines[k]) ==>
            ParseImport(lines[k]).Some? && ParseImport(lines[k]).value.1 in deps.entries)
  {
    SplitImportsValid(lines);
    SplitImportsLast(lines);
    SplitImportsCover(lines);
  }

  lemma {:induction false} SplitImportsValid(lines: seq<string>)
    requires SplitImports(lines).Ok?
    ensures SplitImports(lines).value.0.Valid()
  {
    if lines != [] {
      SplitImportsValid(lines[..|lines| - 1]);
    }
  }

  lemma {:induction false} SplitImportsLast(lines: seq<string>)
    requires SplitImports(lines).Ok?
    ensures var deps := SplitImports(lines).value.0;
      forall alias :: alias in deps.entries ==> exists k :: LastImportOf(lines, k, alias, deps.entries[alias])
  {
    if lines != [] {
      var n := |lines| - 1;
      var init := lines[..n];
      var line := lines[n];
      SplitImportsLast(init);
      var deps0 := SplitImports(init).value.0;
      var deps := SplitImports(lines).value.0;
      forall alias | alias in deps.entries
        ensures exists k :: LastImportOf(lines, k, alias, deps.entries[alias])
      {
        if IsImportLine(line) && ParseImport(line).value.1 == alias {
          assert LastImportOf(lines, n, alias, deps.entries[alias]);
        } else {
          var k :| LastImportOf(init, k, alias, deps0.entries[alias]);
          LastImportExtends(lines, k, alias, deps.entries[alias]);
        }
      }
    }
  }

  /** The last import of an alias in all but the final line stays the last
      one when the final line does not import that alias. */
  lemma LastImportExtends(lines: seq<string>, k: nat, alias: string, name: string)
    requires lines != [] && LastImportOf(lines[..|lines| - 1], k, alias, name)
    requires var line := lines[|lines| - 1];
      IsImportLine(line) && ParseImport(line).Some? ==> ParseImport(line).value.1 != alias
    ensures LastImportOf(lines, k, alias, name)
  {
    var init := lines[..|lines| - 1];
    forall j | k < j < |lines| && IsImportLine(lines[j]) && ParseImport(lines[j]).Some?
      ensures ParseImport(lines[j]).value.1 != alias
    {
      if j < |init| {
        assert lines[j] == init[j];
      }
    }
    assert lines[k] == init[k];
  }

  lemma {:induction false} SplitImportsCover(lines: seq<string>)
    requires SplitImports(lines).Ok?
    ensures var deps := SplitImports(lines).value.0;
      forall k :: 0 <= k < |lines| && IsImportLine(lines[k]) ==>
        ParseImport(lines[k]).Some? && ParseImport(lines[k]).value.1 in deps.entries
  {
    if lines != [] {
      var n := |lines| - 1;
      var init := lines[..n];
      SplitImportsCover(init);
      assert forall k :: 0 <= k < n ==> init[k] == lines[k];
    }
  }

  /** Without import lines: no dependencies, and `temp_code` is the raw code. */
  lemma {:induction false} NoImports(lines: seq<string>)
    requires forall k :: 0 <= k < |lines| ==> !IsImportLine(lines[k])
    ensures SplitImports(lines) == Ok((Empty(), lines))
  {
    if lines != [] {
      var init := lines[..|lines| - 1];
      NoImports(init);
      assert init + [lines[|lines| - 1]] == lines;
    }
  }

  /** `sanitized` succeeds exactly when every import line parses; its
      `temp_code` is then the code lines and its signature is that of their
      newline-joined text. */
  lemma SanitizedContents(info: ContractInfo, sign: Signer)
    requires info.rawCode.Some?
    ensures var raw := info.rawCode.value;
      var r := SanitizedOf(info, sign);
      && (r.Ok? <==> ImportsParse(raw))
      && (r.Ok? ==> r.value.tempCode == CodeLines(raw) && r.value.signature == sign(Join("\n", CodeLines(raw))))
  {
    var raw := info.rawCode.value;
    SplitImportsFails(raw);
    if SplitImports(raw).Ok? {
      SplitImportsCode(raw);
    }
  }

  /** Sanitising the returned `temp_code` again gives the same `temp_code`,
      no dependencies and the same signature. */
  lemma SanitizeIdempotent(info: ContractInfo, sign: Signer)
    requires SanitizedOf(info, sign).Ok?
    ensures var s := SanitizedOf(info, sign).value;
      SanitizedOf(info.(rawCode := Some(s.tempCode)), sign) == Ok(Sanitized(Empty(), s.tempCode, s.signature))
  {
    var raw := info.rawCode.value;
    SplitImportsCode(raw);
    NoImports(CodeLines(raw));
  }
}
