/** The few Python `str` operations the deployment pipeline relies on,
    with the exact Python meaning (strings are sequences of characters). */
module Text {
  import opened Wrappers

  predicate StartsWith(s: string, prefix: string) {
    |prefix| <= |s| && s[..|prefix|] == prefix
  }

  predicate EndsWith(s: string, suffix: string) {
    |suffix| <= |s| && s[|s| - |suffix|..] == suffix
  }

  /** `s.lstrip(chars)`: removes leading characters that belong to the SET `cs`
      (Python strips a set of characters, not a prefix). */
  function LStrip(s: string, cs: set<char>): (r: string)
    ensures |r| <= |s|
    decreases |s|
  {
    if s != [] && s[0] in cs then LStrip(s[1..], cs) else s
  }

  /** What `lstrip` leaves: a suffix of `s` that does not start with a
      character of `cs`, preceded in `s` only by characters of `cs`. */
  lemma {:induction false} LStripSuffix(s: string, cs: set<char>)
    ensures var r := LStrip(s, cs);
      && r == s[|s| - |r|..]
      && (forall i :: 0 <= i < |s| - |r| ==> s[i] in cs)
      && (r != [] ==> r[0] !in cs)
    decreases |s|
  {
    if s != [] && s[0] in cs {
      LStripSuffix(s[1..], cs);
    }
  }

  /** The strip stops at the first character outside the set. */
  lemma {:induction false} LStripStopsAt(s: string, cs: set<char>, k: nat)
    requires k < |s| && s[k] !in cs
    requires forall i :: 0 <= i < k ==> s[i] in cs
    ensures LStrip(s, cs) == s[k..]
    decreases k
  {
    if k > 0 {
      LStripStopsAt(s[1..], cs, k - 1);
      assert s[1..][k - 1..] == s[k..];
    }
  }

  /** `s.rstrip(chars)`: removes trailing characters that belong to the SET `cs`. */
  function RStrip(s: string, cs: set<char>): (r: string)
    ensures |r| <= |s|
    decreases |s|
  {
    if s != [] && s[|s| - 1] in cs then RStrip(s[..|s| - 1], cs) else s
  }

  /** What `rstrip` leaves: a prefix of `s` that does not end in `cs`, followed
      in `s` only by characters of `cs`. */
  lemma {:induction false} RStripPrefix(s: string, cs: set<char>)
    ensures var r := RStrip(s, cs);
      && r == s[..|r|]
      && (forall i :: |r| <= i < |s| ==> s[i] in cs)
      && (r != [] ==> r[|r| - 1] !in cs)
    decreases |s|
  {
    if s != [] && s[|s| - 1] in cs {
      RStripPrefix(s[..|s| - 1], cs);
    }
  }

  /** The strip stops at the last character outside the set. */
  lemma {:induction false} RStripStopsAt(s: string, cs: set<char>, k: nat)
    requires 0 < k <= |s| && s[k - 1] !in cs
    requires forall i :: k <= i < |s| ==> s[i] in cs
    ensures RStrip(s, cs) == s[..k]
    decreases |s|
  {
    if k < |s| {
      assert s[..|s| - 1][..k] == s[..k];
      RStripStopsAt(s[..|s| - 1], cs, k);
    } else {
      assert s[..k] == s;
    }
  }

  /** `os.path.basename(p)`: everything after the last '/'. */
  function Basename(p: string): (r: string)
    ensures |r| <= |p|
  {
    if p == [] || p[|p| - 1] == '/' then [] else Basename(p[..|p| - 1]) + [p[|p| - 1]]
  }

  /** The base name is the longest suffix of `p` without '/': it holds no '/'
      and is either all of `p` or preceded by a '/'. */
  lemma {:induction false} BasenameSuffix(p: string)
    ensures var r := Basename(p);
      && r == p[|p| - |r|..]
      && (forall i :: 0 <= i < |r| ==> r[i] != '/')
      && (|r| < |p| ==> p[|p| - |r| - 1] == '/')
  {
    if p != [] && p[|p| - 1] != '/' {
      var init := p[..|p| - 1];
      BasenameSuffix(init);
      var b := Basename(init);
      assert p[|p| - |b| - 1..] == init[|init| - |b|..] + [p[|p| - 1]];
    }
  }

  /** The base name of `dir/name` is `name` when `name` holds no '/'. */
  lemma {:induction false} BasenameAfterSlash(dir: string, name: string)
    requires forall i :: 0 <= i < |name| ==> name[i] != '/'
    ensures Basename(dir + "/" + name) == name
    decreases |name|
  {
    var p := dir + "/" + name;
    if name == [] {
      assert p[|p| - 1] == '/';
    } else {
      var init := name[..|name| - 1];
      assert p[..|p| - 1] == dir + "/" + init;
      BasenameAfterSlash(dir, init);
      assert init + [name[|name| - 1]] == name;
    }
  }

  /** The base name of `prefix + name` is `name` when `prefix` is empty or
      ends in '/' and `name` holds no '/'. */
  lemma {:induction false} BasenameAfterPrefix(prefix: string, name: string)
    requires prefix == [] || prefix[|prefix| - 1] == '/'
    requires forall i :: 0 <= i < |name| ==> name[i] != '/'
    ensures Basename(prefix + name) == name
    decreases |name|
  {
    if name == [] {
      assert prefix + name == prefix;
    } else {
      var init := name[..|name| - 1];
      assert (prefix + name)[..|prefix + name| - 1] == prefix + init;
      BasenameAfterPrefix(prefix, init);
      assert init + [name[|name| - 1]] == name;
    }
  }

  /** `sep.join(parts)`. */
  function Join(sep: string, parts: seq<string>): string {
    if parts == [] then []
    else if |parts| == 1 then parts[0]
    else Join(sep, parts[..|parts| - 1]) + sep + parts[|parts| - 1]
  }

  /** `pat` occurs in `s` starting at index `j`. */
  predicate OccursAt(s: string, pat: string, j: nat) {
    j + |pat| <= |s| && s[j..j + |pat|] == pat
  }

  /** The index of the first occurrence of `pat` in `s` (`s.find(pat)`), if any. */
  function FindFirst(s: string, pat: string): (r: Option<nat>)
    ensures r.Some? ==> r.value + |pat| <= |s|
  {
    FindFrom(s, pat, 0)
  }

  /** The first occurrence of `pat` in `s` at or after `from`. */
  function FindFrom(s: string, pat: string, from: nat): (r: Option<nat>)
    ensures r.Some? ==> from <= r.value && r.value + |pat| <= |s|
    decreases |s| - from
  {
    if from + |pat| > |s| then None
    else if OccursAt(s, pat, from) then Some(from)
    else FindFrom(s, pat, from + 1)
  }

  /** The scan finds an occurrence, the first one at or after `from`. */
  lemma {:induction false} FindFromSpec(s: string, pat: string, from: nat)
    ensures var r := FindFrom(s, pat, from);
      && (r.Some? ==> OccursAt(s, pat, r.value))
      && (r.Some? ==> forall j :: from <= j < r.value ==> !OccursAt(s, pat, j))
      && (r.None? ==> forall j :: from <= j ==> !OccursAt(s, pat, j))
    decreases |s| - from
  {
    if from + |pat| <= |s| && !OccursAt(s, pat, from) {
      FindFromSpec(s, pat, from + 1);
    }
  }

  /** `needle in hay`. */
  predicate Contains(hay: string, needle: string) {
    FindFirst(hay, needle).Some?
  }

  /** `needle in hay` holds exactly when the needle occurs somewhere. */
  lemma ContainsOccurs(hay: string, needle: string)
    ensures Contains(hay, needle) <==> exists j :: 0 <= j && OccursAt(hay, needle, j)
  {
    FindFromSpec(hay, needle, 0);
  }

  /** `s.split(sep)`: the pieces between the non-overlapping occurrences of
      `sep`, found from the left; always at least one piece. */
  function SplitOn(s: string, sep: string): (r: seq<string>)
    requires |sep| > 0
    ensures |r| >= 1
    decreases |s|
  {
    match FindFirst(s, sep)
    case None => [s]
    case Some(i) => [s[..i]] + SplitOn(s[i + |sep|..], sep)
  }

  lemma NothingBefore(s: string, sep: string, i: nat)
    requires |sep| > 0 && i <= |s|
    requires forall j :: 0 <= j < i ==> !OccursAt(s, sep, j)
    ensures !Contains(s[..i], sep)
  {
    var f := FindFirst(s[..i], sep);
    FindFromSpec(s[..i], sep, 0);
    if f.Some? {
      assert s[..i][f.value..f.value + |sep|] == s[f.value..f.value + |sep|];
      assert OccursAt(s, sep, f.value);
    }
  }

  /** No piece of a split contains the separator. */
  lemma {:induction false} SplitOnPieces(s: string, sep: string)
    requires |sep| > 0
    ensures forall k :: 0 <= k < |SplitOn(s, sep)| ==> !Contains(SplitOn(s, sep)[k], sep)
    decreases |s|
  {
    FindFromSpec(s, sep, 0);
    match FindFirst(s, sep)
    case None =>
      NothingBefore(s, sep, |s|);
      assert s[..|s|] == s;
    case Some(i) =>
      NothingBefore(s, sep, i);
      SplitOnPieces(s[i + |sep|..], sep);
  }

  /** Joining on a one-element-longer list adds the separator and the new part. */
  lemma JoinCons(sep: string, x: string, parts: seq<string>)
    requires parts != []
    ensures Join(sep, [x] + parts) == x + sep + Join(sep, parts)
    decreases |parts|
  {
    if |parts| == 1 {
      assert [x] + parts == [x, parts[0]];
      assert ([x] + parts)[..1] == [x];
    } else {
      var init := parts[..|parts| - 1];
      assert ([x] + parts)[..|parts|] == [x] + init;
      JoinCons(sep, x, init);
    }
  }

  /** Splitting and re-joining gives back the text: `sep.join(s.split(sep)) == s`. */
  lemma {:induction false} JoinSplit(s: string, sep: string)
    requires |sep| > 0
    ensures Join(sep, SplitOn(s, sep)) == s
    decreases |s|
  {
    FindFromSpec(s, sep, 0);
    match FindFirst(s, sep)
    case None =>
      assert SplitOn(s, sep) == [s];
    case Some(i) =>
      var rest := SplitOn(s[i + |sep|..], sep);
      JoinSplit(s[i + |sep|..], sep);
      JoinCons(sep, s[..i], rest);
      assert s == s[..i] + sep + s[i + |sep|..];
  }

  /** Joining lines that hold no `c`, then splitting on `c`, gives back the lines. */
  lemma {:induction false} SplitJoin(parts: seq<string>, c: char)
    requires parts != []
    requires forall k :: 0 <= k < |parts| ==> c !in parts[k]
    ensures SplitOn(Join([c], parts), [c]) == parts
    decreases |parts|
  {
    var x := parts[0];
    if |parts| == 1 {
      NoCharNoOccurrence(x, c);
      FindFromSpec(x, [c], 0);
    } else {
      var s := Join([c], parts);
      assert parts == [x] + parts[1..];
      JoinCons([c], x, parts[1..]);
      assert s == x + [c] + Join([c], parts[1..]);
      FirstSeparator(x, c, Join([c], parts[1..]));
      assert s[..|x|] == x;
      assert s[|x| + 1..] == Join([c], parts[1..]);
      SplitJoin(parts[1..], c);
    }
  }

  lemma NoCharNoOccurrence(x: string, c: char)
    requires c !in x
    ensures forall j :: 0 <= j ==> !OccursAt(x, [c], j)
  {
    forall j | 0 <= j ensures !OccursAt(x, [c], j) {
      if j + 1 <= |x| {
        assert x[j..j + 1] == [x[j]];
      }
    }
  }

  /** In `x + [c] + rest` with no `c` in `x`, the first `c` is the one after `x`. */
  lemma FirstSeparator(x: string, c: char, rest: string)
    requires c !in x
    ensures FindFirst(x + [c] + rest, [c]) == Some(|x|)
  {
    var s := x + [c] + rest;
    forall j | 0 <= j < |x| ensures !OccursAt(s, [c], j) {
      assert s[j..j + 1] == [x[j]];
    }
    assert s[|x|..|x| + 1] == [c];
    FindFromFirst(s, [c], 0, |x|);
  }

  /** The scan from `from` stops at the first occurrence `i`. */
  lemma {:induction false} FindFromFirst(s: string, pat: string, from: nat, i: nat)
    requires from <= i && OccursAt(s, pat, i)
    requires forall j :: from <= j < i ==> !OccursAt(s, pat, j)
    ensures FindFrom(s, pat, from) == Some(i)
    decreases i - from
  {
    if from < i {
      FindFromFirst(s, pat, from + 1, i);
    }
  }

  /** A position whose character differs from the pattern's first is not an occurrence. */
  lemma NotAt(s: string, pat: string, j: nat)
    requires j < |s| && |pat| > 0 && s[j] != pat[0]
    ensures !OccursAt(s, pat, j)
  {
    if j + |pat| <= |s| {
      assert s[j..j + |pat|][0] == s[j];
    }
  }

  /** Text shorter than the separator is a single piece. */
  lemma SplitOnShort(s: string, sep: string)
    requires 0 < |sep| && |s| < |sep|
    ensures SplitOn(s, sep) == [s]
  {
    FindFromSpec(s, sep, 0);
  }

  /** The split cuts at the first occurrence `i` of the separator. */
  lemma SplitOnFirst(s: string, sep: string, i: nat)
    requires 0 < |sep| && OccursAt(s, sep, i)
    requires forall j :: 0 <= j < i ==> !OccursAt(s, sep, j)
    ensures SplitOn(s, sep) == [s[..i]] + SplitOn(s[i + |sep|..], sep)
  {
    FindFromFirst(s, sep, 0, i);
  }

  /** A first piece without the separator's first character is cut off at
      the separator that follows it. */
  lemma SplitAfterPiece(x: string, sep: string, rest: string)
    requires 0 < |sep| && sep[0] !in x
    ensures SplitOn(x + sep + rest, sep) == [x] + SplitOn(rest, sep)
  {
    var s := x + sep + rest;
    forall j | 0 <= j < |x|
      ensures !OccursAt(s, sep, j)
    {
      assert s[j] == x[j];
      NotAt(s, sep, j);
    }
    assert s[|x|..|x| + |sep|] == sep;
    SplitOnFirst(s, sep, |x|);
    assert s[..|x|] == x && s[|x| + |sep|..] == rest;
  }
}
