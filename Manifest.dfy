/** The dependency manifest format and its parser (`parse_depfile`): one
    dependency per line as `name [url] [branch]`, whitespace-separated, with
    blank lines and `#` comment lines ignored. */
module Manifest {
  import opened Wrappers
  import opened Text

  /** A dependency record: the repository name, where to clone it from and
      which branch to check out. */
  datatype Dep = Dep(name: string, url: string, branch: string)

  /** The parser's default owner, used to build the URL of a line without one. */
  const DefaultOwner: string := "OCA"

  /** The URL of the repository `name` of `owner` on GitHub. */
  function DefaultUrl(owner: string, name: string): string {
    "https://github.com/" + owner + "/" + name + ".git"
  }

  /** One manifest line, as the body of `parse_depfile`'s loop treats it. */
  function ParseLine(line: string, owner: string, defaultBranch: string): Option<Dep> {
    var stripped := Strip(line);
    if stripped == [] || stripped[0] == '#' then
      None
    else
      StripTrims(line);
      SplitTokens(stripped);
      var parts := Split(stripped);
      var repo := parts[0];
      var branch := if |parts| > 2 then parts[2] else defaultBranch;
      var url := if |parts| > 1 then parts[1] else DefaultUrl(owner, repo);
      Some(Dep(repo, url, branch))
  }

  /** A line yields nothing when it has no token or its first token starts
      with `#`; otherwise the first token is the name, the second (if any)
      the URL, the third (if any) the branch, and later tokens are ignored. */
  lemma ParseLineByTokens(line: string, owner: string, defaultBranch: string)
    ensures var r := ParseLine(line, owner, defaultBranch);
      && (r.None? <==> (Split(line) == [] || Split(line)[0][0] == '#'))
      && (r.Some? ==>
            var tokens := Split(line);
            && r.value.name == tokens[0]
            && r.value.url == (if |tokens| > 1 then tokens[1] else DefaultUrl(owner, tokens[0]))
            && r.value.branch == (if |tokens| > 2 then tokens[2] else defaultBranch))
  {
    SplitOfStrip(line);
    if !AllSpace(line) {
      FirstTokenStartsStrip(line);
    }
  }

  /** The name of a record is a non-empty run of non-whitespace characters
      that begins the stripped line and runs up to its first whitespace. */
  lemma NameIsFirstToken(line: string, owner: string, defaultBranch: string)
    requires ParseLine(line, owner, defaultBranch).Some?
    ensures var name := ParseLine(line, owner, defaultBranch).value.name;
      && name != [] && NoSpace(name)
      && name <= Strip(line)
      && (|name| < |Strip(line)| ==> IsSpace(Strip(line)[|name|]))
  {
    SplitOfStrip(line);
    SplitTokens(line);
    FirstTokenStartsStrip(line);
  }

  /** A record as a sequence of zero or one records. */
  function Emit(r: Option<Dep>): seq<Dep> {
    if r.Some? then [r.value] else []
  }

  /** The records among the results of single lines, in order. */
  function Collect(rs: seq<Option<Dep>>): seq<Dep> {
    if rs == [] then [] else Collect(rs[..|rs| - 1]) + Emit(rs[|rs| - 1])
  }

  /** The result of each line on its own. */
  function LineResults(lines: seq<string>, owner: string, defaultBranch: string): seq<Option<Dep>> {
    seq(|lines|, k requires 0 <= k < |lines| => ParseLine(lines[k], owner, defaultBranch))
  }

  /** What `parse_depfile` returns for a file of `lines`: the records of the
      lines that yield one, in line order. */
  function ParseLines(lines: seq<string>, owner: string, defaultBranch: string): seq<Dep> {
    Collect(LineResults(lines, owner, defaultBranch))
  }

  /** `parse_depfile`: builds the list of records line by line. */
  method ParseDepfile(depfile: seq<string>, owner: string, defaultBranch: string) returns (deps: seq<Dep>)
    ensures deps == ParseLines(depfile, owner, defaultBranch)
  {
    ghost var rs := LineResults(depfile, owner, defaultBranch);
    deps := [];
    var i := 0;
    while i < |depfile|
      invariant 0 <= i <= |depfile|
      invariant deps == Collect(rs[..i])
    {
      assert rs[..i + 1][..i] == rs[..i];
      assert rs[i] == ParseLine(depfile[i], owner, defaultBranch);
      var line := Strip(depfile[i]);
      i := i + 1;
      if line == [] || line[0] == '#' {
        continue;
      }
      StripTrims(depfile[i - 1]);
      SplitTokens(line);
      var parts := Split(line);
      var repo := parts[0];
      var branch := defaultBranch;
      if |parts| > 2 {
        branch := parts[2];
      }
      var url := DefaultUrl(owner, repo);
      if |parts| > 1 {
        url := parts[1];
      }
      deps := deps + [Dep(repo, url, branch)];
    }
    assert rs[..i] == rs;
  }

  lemma {:induction false} CollectBound(rs: seq<Option<Dep>>)
    ensures |Collect(rs)| <= |rs|
    decreases |rs|
  {
    if rs != [] {
      CollectBound(rs[..|rs| - 1]);
    }
  }

  /** There is at most one record per line. */
  lemma ParseLinesBound(lines: seq<string>, owner: string, defaultBranch: string)
    ensures |ParseLines(lines, owner, defaultBranch)| <= |lines|
  {
    CollectBound(LineResults(lines, owner, defaultBranch));
  }

  lemma {:induction false} CollectAppend(a: seq<Option<Dep>>, b: seq<Option<Dep>>)
    ensures Collect(a + b) == Collect(a) + Collect(b)
    decreases |b|
  {
    if b == [] {
      assert a + b == a;
    } else {
      var b' := b[..|b| - 1];
      assert (a + b)[..|a + b| - 1] == a + b';
      assert (a + b)[|a + b| - 1] == b[|b| - 1];
      CollectAppend(a, b');
    }
  }

  /** Lines are parsed independently and their records keep the line order:
      the records of two files put together are those of the first file
      followed by those of the second. */
  lemma ParseLinesAppend(a: seq<string>, b: seq<string>, owner: string, defaultBranch: string)
    ensures ParseLines(a + b, owner, defaultBranch) == ParseLines(a, owner, defaultBranch) + ParseLines(b, owner, defaultBranch)
  {
    LineResultsAppend(a, b, owner, defaultBranch);
    CollectAppend(LineResults(a, owner, defaultBranch), LineResults(b, owner, defaultBranch));
  }

  lemma LineResultsAppend(a: seq<string>, b: seq<string>, owner: string, defaultBranch: string)
    ensures LineResults(a + b, owner, defaultBranch) == LineResults(a, owner, defaultBranch) + LineResults(b, owner, defaultBranch)
  {
    var ra, rb := LineResults(a, owner, defaultBranch), LineResults(b, owner, defaultBranch);
    forall k | 0 <= k < |a| + |b|
      ensures LineResults(a + b, owner, defaultBranch)[k] == (ra + rb)[k]
    {
      if k < |a| {
        assert (a + b)[k] == a[k];
      } else {
        assert (a + b)[k] == b[k - |a|];
      }
    }
  }

  lemma {:induction false} CollectedFrom(rs: seq<Option<Dep>>, d: Dep)
    requires d in Collect(rs)
    ensures exists k :: 0 <= k < |rs| && rs[k] == Some(d)
    decreases |rs|
  {
    var init := rs[..|rs| - 1];
    if d in Collect(init) {
      CollectedFrom(init, d);
      var k :| 0 <= k < |init| && init[k] == Some(d);
      assert rs[k] == init[k];
    } else {
      assert rs[|rs| - 1] == Some(d);
    }
  }

  /** Every record comes from some line. */
  lemma ParsedFromLine(lines: seq<string>, owner: string, defaultBranch: string, d: Dep)
    requires d in ParseLines(lines, owner, defaultBranch)
    ensures exists k :: 0 <= k < |lines| && ParseLine(lines[k], owner, defaultBranch) == Some(d)
  {
    var rs := LineResults(lines, owner, defaultBranch);
    CollectedFrom(rs, d);
    var k :| 0 <= k < |rs| && rs[k] == Some(d);
    assert ParseLine(lines[k], owner, defaultBranch) == Some(d);
  }

  lemma {:induction false} EntryCollected(rs: seq<Option<Dep>>, k: nat)
    requires k < |rs| && rs[k].Some?
    ensures rs[k].value in Collect(rs)
    decreases |rs|
  {
    var init := rs[..|rs| - 1];
    if k < |init| {
      assert init[k] == rs[k];
      EntryCollected(init, k);
    }
  }

  /** Every line that yields a record has it in the result. */
  lemma LineIsParsed(lines: seq<string>, owner: string, defaultBranch: string, k: nat)
    requires k < |lines| && ParseLine(lines[k], owner, defaultBranch).Some?
    ensures ParseLine(lines[k], owner, defaultBranch).value in ParseLines(lines, owner, defaultBranch)
  {
    EntryCollected(LineResults(lines, owner, defaultBranch), k);
  }

  /** A blank line or a comment line, wherever it stands, adds no record. */
  lemma IgnoredLine(before: seq<string>, line: string, after: seq<string>, owner: string, defaultBranch: string)
    requires Strip(line) == [] || Strip(line)[0] == '#'
    ensures ParseLines(before + [line] + after, owner, defaultBranch) == ParseLines(before + after, owner, defaultBranch)
  {
    assert LineResults([line], owner, defaultBranch) == [None];
    assert Collect([None]) == [];
    ParseLinesAppend(before + [line], after, owner, defaultBranch);
    ParseLinesAppend(before, [line], owner, defaultBranch);
    ParseLinesAppend(before, after, owner, defaultBranch);
  }

  /** Tokens after the third one do not matter. */
  lemma ExtraTokensIgnored(line: string, other: string, owner: string, defaultBranch: string)
    requires |Split(line)| >= 3 && |Split(other)| >= 3 && Split(line)[..3] == Split(other)[..3]
    ensures ParseLine(line, owner, defaultBranch) == ParseLine(other, owner, defaultBranch)
  {
    ParseLineByTokens(line, owner, defaultBranch);
    ParseLineByTokens(other, owner, defaultBranch);
    assert Split(line)[0] == Split(line)[..3][0] && Split(other)[0] == Split(other)[..3][0];
    assert Split(line)[1] == Split(line)[..3][1] && Split(other)[1] == Split(other)[..3][1];
    assert Split(line)[2] == Split(line)[..3][2] && Split(other)[2] == Split(other)[..3][2];
  }

  /** Whether `d` can be written on a manifest line: its three fields are
      non-empty and free of whitespace, and its name does not start a comment. */
  predicate Writable(d: Dep) {
    && d.name != [] && NoSpace(d.name) && d.name[0] != '#'
    && d.url != [] && NoSpace(d.url)
    && d.branch != [] && NoSpace(d.branch)
  }

  /** The manifest line that states all three fields of `d`. */
  function FormatLine(d: Dep): string {
    d.name + " " + d.url + " " + d.branch
  }

  /** Parsing the line written for a record gives the record back. */
  lemma ParseFormatLine(d: Dep, owner: string, defaultBranch: string)
    requires Writable(d)
    ensures ParseLine(FormatLine(d), owner, defaultBranch) == Some(d)
  {
    assert FormatLine(d) == d.name + " " + (d.url + " " + d.branch);
    SplitCons(d.name, " ", d.url + " " + d.branch);
    SplitCons(d.url, " ", d.branch);
    SplitWord(d.branch);
    ParseLineByTokens(FormatLine(d), owner, defaultBranch);
  }

  /** A line with a name and a URL takes the default branch. */
  lemma ParseNameAndUrl(name: string, url: string, owner: string, defaultBranch: string)
    requires name != [] && NoSpace(name) && name[0] != '#' && url != [] && NoSpace(url)
    ensures ParseLine(name + " " + url, owner, defaultBranch) == Some(Dep(name, url, defaultBranch))
  {
    SplitCons(name, " ", url);
    SplitWord(url);
    ParseLineByTokens(name + " " + url, owner, defaultBranch);
  }

  /** A line with only a name takes the default URL and the default branch. */
  lemma ParseNameOnly(name: string, owner: string, defaultBranch: string)
    requires name != [] && NoSpace(name) && name[0] != '#'
    ensures ParseLine(name, owner, defaultBranch) == Some(Dep(name, DefaultUrl(owner, name), defaultBranch))
  {
    SplitWord(name);
    ParseLineByTokens(name, owner, defaultBranch);
  }
}
