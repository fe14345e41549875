/** The decision logic of the git client (pkg/git/git.go). Running the git
    process is abstracted as a `Runner` from argument lists to
    `(output, error)`; every operation reports the argument lists it ran. */
module Git {
  import opened Calls
  import opened Strings

  /** The arguments of one git invocation (after the fixed `-c
      log.showSignature=false` prefix, which belongs to the runner). */
  type Args = seq<string>

  /** Runs git with the given arguments: stdout and nil, or an error
      whose text is stderr. */
  type Runner = Args -> Pair<string>

  const IsRepoArgs: Args := ["rev-parse", "--is-inside-work-tree"]

  /** The three probes of LatestTagOrHash, in the order they are tried:
      tags at HEAD newest first, the nearest reachable tag, HEAD's hash. */
  const LatestProbes: seq<Args> := [
    ["tag", "--points-at", "HEAD", "--sort", "-version:creatordate"],
    ["describe", "--tags", "--abbrev=0"],
    ["rev-parse", "HEAD"]
  ]

  /** The tag reachable from the parent of `tag`. */
  function DescribeParentArgs(tag: string): Args
  {
    ["describe", "--tags", "--abbrev=0", "tags/" + tag + "^"]
  }

  /** The root commit(s) of HEAD's history. */
  const RootCommitArgs: Args := ["rev-list", "--max-parents=0", "HEAD"]

  const LogOptions: Args := ["log", "--pretty=oneline", "--abbrev-commit", "--no-decorate", "--no-color"]

  /** The first line of the output with every single quote removed; the
      error, if any, loses one trailing newline. */
  function Clean(p: Pair<string>): (r: Pair<string>)
    ensures '\n' !in r.value && '\'' !in r.value
    ensures r.err.Nil? <==> p.err.Nil?
    ensures p.err.Err? ==> p.err.msg == r.err.msg || p.err.msg == r.err.msg + "\n"
    ensures p.err.Err? && (|p.err.msg| == 0 || p.err.msg[|p.err.msg| - 1] != '\n') ==> r.err == p.err
    ensures p.err.Err? && |p.err.msg| > 0 && p.err.msg[|p.err.msg| - 1] == '\n' ==> r.err.msg + "\n" == p.err.msg
  {
    Pair(ReplaceAll(Split(p.value, '\n')[0], '\'', ""),
         if p.err.Nil? then Nil else Err(TrimSuffix(p.err.msg, "\n")))
  }

  /** The cleaned value of the output up to the first newline, or of the
      whole output when it has none; the error does not affect the value. */
  lemma CleanFirstLine(p: Pair<string>)
    ensures '\n' !in p.value ==> Clean(p).value == ReplaceAll(p.value, '\'', "")
    ensures forall i :: 0 <= i < |p.value| && p.value[i] == '\n' && '\n' !in p.value[..i] ==>
      Clean(p).value == ReplaceAll(p.value[..i], '\'', "")
  {
    if '\n' !in p.value {
      SplitNoSeparator(p.value, '\n');
    }
    forall i | 0 <= i < |p.value| && p.value[i] == '\n' && '\n' !in p.value[..i]
      ensures Clean(p).value == ReplaceAll(p.value[..i], '\'', "")
    {
      SplitAtFirst(p.value, '\n', i);
    }
  }

  /** A quote-free first line is returned as it is. */
  lemma CleanQuoteFreeLine(line: string, rest: string, err: Error)
    requires '\n' !in line && '\'' !in line
    ensures Clean(Pair(line + "\n" + rest, err)).value == line
  {
    var out := line + "\n" + rest;
    assert out[|line|] == '\n' && out[..|line|] == line;
    CleanFirstLine(Pair(out, err));
  }

  /** A word in single quotes comes back without its quotes. */
  lemma QuotesStripped(w: string, err: Error)
    requires '\n' !in w && '\'' !in w
    ensures Clean(Pair("'" + w + "'", err)).value == w
  {
    var v := "'" + w + "'";
    assert '\n' !in v by {
      assert forall x :: x in v ==> x == '\'' || x in w;
    }
    CleanFirstLine(Pair(v, err));
    ReplaceAllConcat("'" + w, "'", '\'', "");
    ReplaceAllConcat("'", w, '\'', "");
  }

  /** The unit-test examples: quotes are stripped, and an error without a
      trailing newline is kept as it is, next to the cleaned value. */
  lemma CleanExamples(q: string, e: string)
    requires q == "'test'" && e == "error"
    ensures Clean(Pair(q, Nil)) == Pair("test", Nil)
    ensures Clean(Pair(q, Err(e))) == Pair("test", Err("error"))
  {
    assert q == "'" + "test" + "'";
    QuotesStripped("test", Nil);
    QuotesStripped("test", Err(e));
    assert e[4..] == "r";
  }

  /** Whether the working directory is inside a git work tree. */
  function IsRepo(run: Runner): (r: Traced<Args, bool>)
    ensures r.calls == [IsRepoArgs]
  {
    var out := run(IsRepoArgs);
    Traced(out.err.Nil? && TrimSpace(out.value) == "true", [IsRepoArgs])
  }

  /** IsRepo holds exactly when the command succeeds and prints `true`
      surrounded by nothing but white space. */
  lemma IsRepoExactly(run: Runner)
    ensures IsRepo(run).value <==> run(IsRepoArgs).err.Nil? && Padded(run(IsRepoArgs).value, "true")
  {
    var t := "true";
    assert !IsSpace(t[0]) && !IsSpace(t[|t| - 1]);
    TrimSpaceIs(run(IsRepoArgs).value, t);
  }

  /** The cleaned output of one probe; its error is ignored. */
  function Probe(run: Runner, args: Args): string
  {
    Clean(run(args)).value
  }

  /** The position of the first probe whose cleaned result is non-empty,
      or the number of probes when there is none. */
  function FirstNonEmptyAt(run: Runner, probes: seq<Args>): (i: nat)
    ensures i <= |probes|
    ensures forall k :: 0 <= k < i ==> Probe(run, probes[k]) == ""
    ensures i < |probes| ==> Probe(run, probes[i]) != ""
  {
    if |probes| == 0 || Probe(run, probes[0]) != "" then 0
    else
      var i := FirstNonEmptyAt(run, probes[1..]);
      assert forall k :: 0 < k <= i ==> probes[k] == probes[1..][k - 1];
      1 + i
  }

  /** Runs the probes in order and stops at the first non-empty cleaned
      result; the empty string when every probe came back empty. */
  function FirstNonEmpty(run: Runner, probes: seq<Args>): (r: Traced<Args, string>)
    ensures 1 <= |r.calls| <= |probes| || (|probes| == 0 && r.calls == [])
    ensures r.calls == probes[..|r.calls|]
    ensures forall k :: 0 <= k < |r.calls| - 1 ==> Probe(run, probes[k]) == ""
    ensures r.value != "" ==> |r.calls| >= 1 && r.value == Probe(run, probes[|r.calls| - 1])
    ensures r.value == "" <==> forall k :: 0 <= k < |probes| ==> Probe(run, probes[k]) == ""
    ensures r.value == "" ==> r.calls == probes
  {
    var i := FirstNonEmptyAt(run, probes);
    if i < |probes| then Traced(Probe(run, probes[i]), probes[..i + 1])
    else
      assert probes[..|probes|] == probes;
      Traced("", probes)
  }

  /** The latest tag at or before HEAD, or HEAD's hash when there is no
      tag; the first of the three probes that yields a non-empty line. */
  function LatestTagOrHash(run: Runner): (r: Traced<Args, string>)
    ensures 1 <= |r.calls| <= 3 && r.calls == LatestProbes[..|r.calls|]
    ensures forall k :: 0 <= k < |r.calls| - 1 ==> Probe(run, LatestProbes[k]) == ""
    ensures r.value != "" ==> r.value == Probe(run, LatestProbes[|r.calls| - 1])
    ensures r.value == "" <==> forall k :: 0 <= k < 3 ==> Probe(run, LatestProbes[k]) == ""
    ensures r.value == "" ==> r.calls == LatestProbes
  {
    FirstNonEmpty(run, LatestProbes)
  }

  /** The unit-test examples: a tag at HEAD is returned after one probe;
      three empty probes give the empty string. */
  lemma LatestTagOrHashExamples(run: Runner)
    ensures Probe(run, LatestProbes[0]) == "v0.2.17" ==>
      LatestTagOrHash(run) == Traced("v0.2.17", [LatestProbes[0]])
    ensures (forall k :: 0 <= k < 3 ==> run(LatestProbes[k]) == Pair("", Nil)) ==>
      LatestTagOrHash(run) == Traced("", LatestProbes)
  {
    if forall k :: 0 <= k < 3 ==> run(LatestProbes[k]) == Pair("", Nil) {
      forall k | 0 <= k < 3
        ensures Probe(run, LatestProbes[k]) == ""
      {
        SplitNoSeparator("", '\n');
      }
    }
  }

  /** The tag before `tag`, falling back to the root commit when git
      cannot describe the parent of `tag`. */
  function PreviousTag(run: Runner, tag: string): (r: Traced<Args, Pair<string>>)
    ensures 1 <= |r.calls| <= 2 && r.calls[0] == DescribeParentArgs(tag)
    ensures |r.calls| == 2 <==> run(DescribeParentArgs(tag)).err.Err?
    ensures |r.calls| == 2 ==> r.calls[1] == RootCommitArgs
    ensures r.value == Clean(run(r.calls[|r.calls| - 1]))
    ensures r.value.err.Err? ==> run(DescribeParentArgs(tag)).err.Err? && run(RootCommitArgs).err.Err?
  {
    var first := Clean(run(DescribeParentArgs(tag)));
    if first.err.Nil? then Traced(first, [DescribeParentArgs(tag)])
    else Traced(Clean(run(RootCommitArgs)), [DescribeParentArgs(tag), RootCommitArgs])
  }

  /** When git describes the parent of `tag` as one quote-free line, that
      line is the previous tag and the root commit is never asked for. */
  lemma PreviousTagDescribed(run: Runner, tag: string, previous: string)
    requires run(DescribeParentArgs(tag)) == Pair(previous + "\n", Nil)
    requires '\n' !in previous && '\'' !in previous
    ensures PreviousTag(run, tag) == Traced(Pair(previous, Nil), [DescribeParentArgs(tag)])
  {
    var out := previous + "\n";
    assert out == previous + "\n" + "";
    CleanQuoteFreeLine(previous, "", Nil);
    assert Clean(run(DescribeParentArgs(tag))) == Pair(previous, Nil);
  }

  /** The one-line log of the given refs, output and error passed through
      unchanged. */
  function Log(run: Runner, refs: seq<string>): (r: Traced<Args, Pair<string>>)
    ensures |r.calls| == 1 && |r.calls[0]| == |LogOptions| + |refs|
    ensures r.calls[0][..|LogOptions|] == LogOptions && r.calls[0][|LogOptions|..] == refs
    ensures r.value == run(r.calls[0])
  {
    var args := LogOptions + refs;
    Traced(run(args), [args])
  }
}
