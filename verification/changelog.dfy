/** The changelog command (cmd/changelog/changelog.go): resolve the two
    refs that bound the range, read the one-line log between them, drop
    the entries an exclusion pattern matches, and render the result. */
module Changelog {
  import opened Calls
  import opened Strings
  import Git

  /** The action's inputs. Only the tags and the exclusion patterns are
      read by Changelog; the directory and debug flag are used elsewhere. */
  datatype Params = Params(currentTag: string, previousTag: string, exclude: seq<string>, repoDir: string, debug: bool)

  /** The git client interface as an oracle: what each of its four
      methods returns. */
  datatype GitClient = GitClient(
    isRepo: bool,
    latestTagOrHash: string,
    previousTag: string -> Pair<string>,
    log: seq<string> -> Pair<string>)

  /** A call made on the git client, with its arguments. */
  datatype ClientCall = IsRepoCall | LatestTagOrHashCall | PreviousTagCall(tag: string) | LogCall(refs: seq<string>)

  /** Go's regexp package, left uninterpreted: the error `compile` reports
      for a pattern (Nil when it compiles) and whether a compiled pattern
      matches somewhere in a string. */
  datatype Regexp = Regexp(compile: string -> Error, matches: (string, string) -> bool)

  const NotRepoMessage := "current folder is not a git repository"
  const PreviousTagPrefix := "failed to get previous tag: "
  const LogPrefix := "failed to get log: "
  const Heading := "## Changelog"

  predicate IsHexDigit(c: char)
  {
    '0' <= c <= '9' || 'a' <= c <= 'f' || 'A' <= c <= 'F'
  }

  /** Length of the longest prefix of `s` made of hex digits: the run the
      character class `[a-fA-F0-9]` consumes from the start. */
  function HexRun(s: string): (n: nat)
    ensures n <= |s|
    ensures forall i :: 0 <= i < n ==> IsHexDigit(s[i])
    ensures n < |s| ==> !IsHexDigit(s[n])
  {
    if |s| > 0 && IsHexDigit(s[0]) then 1 + HexRun(s[1..]) else 0
  }

  /** The anchored pattern `^[a-fA-F0-9]{40}$`: in Go's regexp `$` is the
      end of the text, so the whole string must be forty hex digits. */
  function IsSHA1(ref: string): (b: bool)
    ensures b <==> |ref| == 40 && forall i :: 0 <= i < |ref| ==> IsHexDigit(ref[i])
  {
    |ref| == 40 && HexRun(ref) == 40
  }

  /** The summary of a log line: the words after the first, that is the
      hash, rejoined with single spaces. */
  function ExtractCommitInfo(line: string): string
  {
    Join(Split(line, ' ')[1..], " ")
  }

  /** ExtractCommitInfo is the text after the first space, and empty when
      there is no space. */
  lemma ExtractCommitInfoAfterFirstSpace(line: string)
    ensures ' ' !in line ==> ExtractCommitInfo(line) == ""
    ensures forall i :: 0 <= i < |line| && line[i] == ' ' && ' ' !in line[..i] ==>
      ExtractCommitInfo(line) == line[i + 1..]
  {
    if ' ' !in line {
      SplitNoSeparator(line, ' ');
    }
    forall i | 0 <= i < |line| && line[i] == ' ' && ' ' !in line[..i]
      ensures ExtractCommitInfo(line) == line[i + 1..]
    {
      SplitAtFirst(line, ' ', i);
      assert Split(line, ' ')[1..] == Split(line[i + 1..], ' ');
      JoinSplit(line[i + 1..], ' ');
    }
  }

  /** A log line is a space-free hash, one space and the summary. */
  lemma ExtractCommitInfoOfLogLine(line: string, hash: string, summary: string)
    requires line == hash + " " + summary && ' ' !in hash
    ensures ExtractCommitInfo(line) == summary
  {
    assert line[..|hash|] == hash && line[|hash|] == ' ' && line[|hash| + 1..] == summary;
    ExtractCommitInfoAfterFirstSpace(line);
  }

  /** The unit-test example: the hash of a merge commit is dropped. */
  lemma ExtractCommitInfoExample(line: string, summary: string)
    requires summary == "Merge pull request #10 from author/bugfix/on_release"
    requires line == "55df180 " + summary
    ensures ExtractCommitInfo(line) == summary
  {
    ExtractCommitInfoOfLogLine(line, "55df180", summary);
  }

  /** `a` is obtained from `b` by deleting elements. */
  ghost predicate Subsequence<T>(a: seq<T>, b: seq<T>)
    decreases |b|
  {
    || |a| == 0
    || (|b| > 0 && ((a[0] == b[0] && Subsequence(a[1..], b[1..])) || Subsequence(a, b[1..])))
  }

  /** The entries whose summary `pattern` does not match, in their
      original order. */
  function Remove(re: Regexp, pattern: string, entries: seq<string>): (r: seq<string>)
    ensures |r| <= |entries|
    ensures forall i :: 0 <= i < |r| ==> !re.matches(pattern, ExtractCommitInfo(r[i]))
  {
    if |entries| == 0 then []
    else
      var rest := Remove(re, pattern, entries[1..]);
      if re.matches(pattern, ExtractCommitInfo(entries[0])) then rest
      else [entries[0]] + rest
  }

  /** Remove deletes exactly the matching entries: the rest keep their
      order and their number of occurrences. */
  lemma {:induction false} RemoveSelects(re: Regexp, pattern: string, entries: seq<string>)
    ensures Subsequence(Remove(re, pattern, entries), entries)
    ensures (forall e :: multiset(Remove(re, pattern, entries))[e] ==
               (if re.matches(pattern, ExtractCommitInfo(e)) then 0 else multiset(entries)[e]))
  {
    if |entries| > 0 {
      var rest := Remove(re, pattern, entries[1..]);
      RemoveSelects(re, pattern, entries[1..]);
      assert multiset(entries) == multiset{entries[0]} + multiset(entries[1..]) by {
        assert entries == [entries[0]] + entries[1..];
      }
      if !re.matches(pattern, ExtractCommitInfo(entries[0])) {
        var r := [entries[0]] + rest;
        assert r[1..] == rest;
        assert multiset(r) == multiset{entries[0]} + multiset(rest);
      }
    }
  }

  /** Applies the patterns in order, each to what the previous ones left.
      The first pattern that fails to compile stops the loop: its error is
      returned next to the entries filtered so far. */
  function FilterEntries(re: Regexp, filters: seq<string>, entries: seq<string>): (r: Pair<seq<string>>)
    ensures |r.value| <= |entries|
    ensures r.err.Err? ==> exists k :: 0 <= k < |filters| && r.err == re.compile(filters[k])
  {
    if |filters| == 0 then Pair(entries, Nil)
    else
      var e := re.compile(filters[0]);
      if e.Err? then Pair(entries, e)
      else FilterEntries(re, filters[1..], Remove(re, filters[0], entries))
  }

  /** The reference definition of filtering: an entry survives when no
      pattern of the set matches its summary. */
  ghost predicate Survives(re: Regexp, patterns: set<string>, entry: string)
  {
    forall p :: p in patterns ==> !re.matches(p, ExtractCommitInfo(entry))
  }

  ghost function Keep(re: Regexp, patterns: set<string>, entries: seq<string>): seq<string>
  {
    if |entries| == 0 then []
    else (if Survives(re, patterns, entries[0]) then [entries[0]] else []) + Keep(re, patterns, entries[1..])
  }

  ghost function Elements(s: seq<string>): set<string>
  {
    set i | 0 <= i < |s| :: s[i]
  }

  lemma ElementsCons(s: seq<string>)
    requires |s| > 0
    ensures Elements(s) == {s[0]} + Elements(s[1..])
  {
    assert s == [s[0]] + s[1..];
  }

  lemma ElementsPrefixCons(s: seq<string>, k: nat)
    requires 0 < k <= |s|
    ensures Elements(s[..k]) == Elements(s[1..][..k - 1]) + {s[0]}
  {
    assert s[..k] == [s[0]] + s[1..][..k - 1];
    ElementsCons(s[..k]);
    assert s[..k][1..] == s[1..][..k - 1];
  }

  lemma {:induction false} KeepRemove(re: Regexp, patterns: set<string>, p: string, entries: seq<string>)
    ensures Keep(re, patterns, Remove(re, p, entries)) == Keep(re, patterns + {p}, entries)
  {
    if |entries| > 0 {
      KeepRemove(re, patterns, p, entries[1..]);
      var e := entries[0];
      if re.matches(p, ExtractCommitInfo(e)) {
        assert !Survives(re, patterns + {p}, e);
      } else {
        assert Remove(re, p, entries) == [e] + Remove(re, p, entries[1..]);
        assert ([e] + Remove(re, p, entries[1..]))[1..] == Remove(re, p, entries[1..]);
        assert Survives(re, patterns, e) <==> Survives(re, patterns + {p}, e);
      }
    }
  }

  lemma {:induction false} KeepNothing(re: Regexp, entries: seq<string>)
    ensures Keep(re, {}, entries) == entries
  {
    if |entries| > 0 {
      KeepNothing(re, entries[1..]);
      assert entries == [entries[0]] + entries[1..];
    }
  }

  lemma {:induction false} FilterEntriesKeeps(re: Regexp, filters: seq<string>, done: set<string>, entries: seq<string>)
    requires forall k :: 0 <= k < |filters| ==> re.compile(filters[k]).Nil?
    ensures FilterEntries(re, filters, Keep(re, done, entries)).value == Keep(re, done + Elements(filters), entries)
  {
    if |filters| == 0 {
      assert Elements(filters) == {};
      assert done + {} == done;
    } else {
      var f := filters[0];
      var done' := done + {f};
      assert re.compile(f).Nil?;
      assert FilterEntries(re, filters, Keep(re, done, entries))
          == FilterEntries(re, filters[1..], Remove(re, f, Keep(re, done, entries)));
      KeepRemoveCommutes(re, done, f, entries);
      FilterEntriesKeeps(re, filters[1..], done', entries);
      ElementsCons(filters);
      assert done' + Elements(filters[1..]) == done + Elements(filters);
    }
  }

  lemma {:induction false} KeepRemoveCommutes(re: Regexp, done: set<string>, p: string, entries: seq<string>)
    ensures Remove(re, p, Keep(re, done, entries)) == Keep(re, done + {p}, entries)
  {
    if |entries| > 0 {
      KeepRemoveCommutes(re, done, p, entries[1..]);
      var e := entries[0];
      var tail := Keep(re, done, entries[1..]);
      if Survives(re, done, e) {
        assert Keep(re, done, entries) == [e] + tail;
        assert ([e] + tail)[1..] == tail;
        assert Survives(re, done + {p}, e) <==> !re.matches(p, ExtractCommitInfo(e));
      } else {
        assert Keep(re, done, entries) == tail;
        assert !Survives(re, done + {p}, e);
      }
    }
  }

  /** When every pattern compiles, FilterEntries keeps exactly the entries
      no pattern matches: the reference definition over the set of
      patterns. */
  lemma FilterEntriesIsKeep(re: Regexp, filters: seq<string>, entries: seq<string>)
    requires forall k :: 0 <= k < |filters| ==> re.compile(filters[k]).Nil?
    ensures FilterEntries(re, filters, entries) == Pair(Keep(re, Elements(filters), entries), Nil)
  {
    KeepNothing(re, entries);
    FilterEntriesKeeps(re, filters, {}, entries);
    assert {} + Elements(filters) == Elements(filters);
  }

  /** With no patterns the entries are returned unchanged. */
  lemma FilterEntriesNoPatterns(re: Regexp, entries: seq<string>)
    ensures FilterEntries(re, [], entries) == Pair(entries, Nil)
  {
  }

  /** The order and repetition of compiling patterns do not matter. */
  lemma FilterEntriesOrderIndependent(re: Regexp, f1: seq<string>, f2: seq<string>, entries: seq<string>)
    requires forall k :: 0 <= k < |f1| ==> re.compile(f1[k]).Nil?
    requires forall k :: 0 <= k < |f2| ==> re.compile(f2[k]).Nil?
    requires forall k :: 0 <= k < |f1| ==> f1[k] in f2
    requires forall k :: 0 <= k < |f2| ==> f2[k] in f1
    ensures FilterEntries(re, f1, entries) == FilterEntries(re, f2, entries)
  {
    FilterEntriesIsKeep(re, f1, entries);
    FilterEntriesIsKeep(re, f2, entries);
    assert Elements(f1) == Elements(f2);
  }

  lemma {:induction false} KeepTwice(re: Regexp, patterns: set<string>, entries: seq<string>)
    ensures Keep(re, patterns, Keep(re, patterns, entries)) == Keep(re, patterns, entries)
  {
    if |entries| > 0 {
      KeepTwice(re, patterns, entries[1..]);
      var e := entries[0];
      var tail := Keep(re, patterns, entries[1..]);
      if Survives(re, patterns, e) {
        assert Keep(re, patterns, entries) == [e] + tail;
        assert ([e] + tail)[1..] == tail;
        assert Keep(re, patterns, [e] + tail) == [e] + Keep(re, patterns, tail);
      } else {
        assert Keep(re, patterns, entries) == tail;
      }
    }
  }

  /** Filtering a second time with the same compiling patterns changes
      nothing. */
  lemma FilterEntriesIdempotent(re: Regexp, filters: seq<string>, entries: seq<string>)
    requires forall k :: 0 <= k < |filters| ==> re.compile(filters[k]).Nil?
    ensures FilterEntries(re, filters, FilterEntries(re, filters, entries).value) == FilterEntries(re, filters, entries)
  {
    FilterEntriesIsKeep(re, filters, entries);
    FilterEntriesIsKeep(re, filters, Keep(re, Elements(filters), entries));
    KeepTwice(re, Elements(filters), entries);
  }

  /** The first pattern that does not compile ends filtering with its
      error; the entries are those the patterns before it left. */
  lemma {:induction false} FilterEntriesStopsAtFirstError(re: Regexp, filters: seq<string>, entries: seq<string>, k: nat)
    requires k < |filters| && re.compile(filters[k]).Err?
    requires forall j :: 0 <= j < k ==> re.compile(filters[j]).Nil?
    ensures FilterEntries(re, filters, entries) == Pair(Keep(re, Elements(filters[..k]), entries), re.compile(filters[k]))
    decreases |filters|, 1
  {
    if k == 0 {
      KeepNothing(re, entries);
      assert Elements(filters[..0]) == {};
    } else {
      FilterEntriesStopsLater(re, filters, entries, k);
    }
  }

  lemma {:induction false} FilterEntriesStopsLater(re: Regexp, filters: seq<string>, entries: seq<string>, k: nat)
    requires 0 < k < |filters| && re.compile(filters[k]).Err?
    requires forall j :: 0 <= j < k ==> re.compile(filters[j]).Nil?
    ensures FilterEntries(re, filters, entries) == Pair(Keep(re, Elements(filters[..k]), entries), re.compile(filters[k]))
    decreases |filters|, 0
  {
    var rest := filters[1..];
    var removed := Remove(re, filters[0], entries);
    FilterEntriesStep(re, filters, entries);
    assert rest[k - 1] == filters[k];
    forall j | 0 <= j < k - 1
      ensures re.compile(rest[j]).Nil?
    {
      assert rest[j] == filters[j + 1];
    }
    FilterEntriesStopsAtFirstError(re, rest, removed, k - 1);
    KeepStep(re, filters, entries, k);
  }

  /** A pattern that compiles is applied before the rest. */
  lemma FilterEntriesStep(re: Regexp, filters: seq<string>, entries: seq<string>)
    requires |filters| > 0 && re.compile(filters[0]).Nil?
    ensures FilterEntries(re, filters, entries) == FilterEntries(re, filters[1..], Remove(re, filters[0], entries))
  {
  }

  /** Keeping what the patterns after the first allow, after removing the
      first pattern's matches, keeps what all of them allow. */
  lemma KeepStep(re: Regexp, filters: seq<string>, entries: seq<string>, k: nat)
    requires 0 < k <= |filters|
    ensures Keep(re, Elements(filters[1..][..k - 1]), Remove(re, filters[0], entries)) == Keep(re, Elements(filters[..k]), entries)
  {
    KeepRemove(re, Elements(filters[1..][..k - 1]), filters[0], entries);
    ElementsPrefixCons(filters, k);
  }

  /** The unit-test example (hashes 2b982db, 5a359bb, 55df180 there, any
      space-free words here): merges and fixes are dropped, given a regexp
      engine that matches these patterns as Go's does on these summaries. */
  lemma FilterEntriesExample(re: Regexp, filters: seq<string>, h0: string, h1: string, h2: string, merge: string)
    requires filters == ["^Merge pull request .*", "Fix .*"]
    requires merge == "Merge pull request #10 from author/bugfix/on_release"
    requires ' ' !in h0 && ' ' !in h1 && ' ' !in h2
    requires re.compile(filters[0]).Nil? && re.compile(filters[1]).Nil?
    requires re.matches(filters[1], "Fix logging") && !re.matches(filters[1], "Add git ignore")
    requires !re.matches(filters[0], "Add git ignore") && re.matches(filters[0], merge)
    ensures FilterEntries(re, filters, [h0 + " Fix logging", h1 + " Add git ignore", h2 + " " + merge])
         == Pair([h1 + " Add git ignore"], Nil)
  {
    var entries := [h0 + " Fix logging", h1 + " Add git ignore", h2 + " " + merge];
    ExtractCommitInfoOfLogLine(entries[0], h0, "Fix logging");
    ExtractCommitInfoOfLogLine(entries[1], h1, "Add git ignore");
    ExtractCommitInfoOfLogLine(entries[2], h2, merge);
    var patterns := Elements(filters);
    assert patterns == {filters[0], filters[1]} by {
      ElementsCons(filters);
      ElementsCons(filters[1..]);
    }
    assert !Survives(re, patterns, entries[0]);
    assert Survives(re, patterns, entries[1]);
    assert !Survives(re, patterns, entries[2]);
    assert Keep(re, patterns, entries[2..]) == [] by {
      assert entries[2..][1..] == [];
    }
    assert Keep(re, patterns, entries[1..]) == [entries[1]] by {
      assert entries[1..][1..] == entries[2..];
    }
    assert Keep(re, patterns, entries) == [entries[1]];
    FilterEntriesIsKeep(re, filters, entries);
  }

  /** The log entries: the newline-separated fields of the log with the
      last one dropped, which is empty when the log ends in a newline. */
  function Entries(log: string): (r: seq<string>)
    ensures |r| == Count(log, '\n')
    ensures forall i :: 0 <= i < |r| ==> '\n' !in r[i]
  {
    var fields := Split(log, '\n');
    fields[..|fields| - 1]
  }

  /** The entries of a newline-terminated log join back into the log
      without its final newline. */
  lemma EntriesOfTerminatedLog(body: string)
    ensures Join(Entries(body + "\n"), "\n") == body
  {
    SplitTrailing(body, '\n');
    var fields := Split(body + "\n", '\n');
    assert fields[..|fields| - 1] == Split(body, '\n');
    JoinSplit(body, '\n');
  }

  /** Writing lines one per row, each ending in a newline, and taking the
      entries back gives the same lines. */
  lemma EntriesOfLines(lines: seq<string>)
    requires |lines| >= 1
    requires forall i :: 0 <= i < |lines| ==> '\n' !in lines[i]
    ensures Entries(Join(lines, "\n") + "\n") == lines
  {
    var body := Join(lines, "\n");
    SplitTrailing(body, '\n');
    SplitJoin(lines, '\n');
    var fields := Split(body + "\n", '\n');
    assert fields[..|fields| - 1] == Split(body, '\n');
  }

  /** The field after the last newline is the one dropped: lines written
      one per row and followed by an unterminated tail come back without
      the tail. */
  lemma EntriesDropsLastField(lines: seq<string>, tail: string)
    requires |lines| >= 1
    requires forall i :: 0 <= i < |lines| ==> '\n' !in lines[i]
    requires '\n' !in tail
    ensures Entries(Join(lines, "\n") + "\n" + tail) == lines
  {
    var body := Join(lines, "\n");
    SplitAppend(body, '\n', tail);
    SplitJoin(lines, '\n');
    var fields := Split(body + "\n" + tail, '\n');
    assert fields == lines + [tail];
    assert fields[..|fields| - 1] == lines;
  }

  /** The changelog text: the heading, a blank line, then the entries one
      per line. */
  function Render(entries: seq<string>): (r: string)
    ensures r == Heading + "\n\n" + Join(entries, "\n")
    ensures |entries| == 0 ==> r == "## Changelog\n\n"
  {
    var elements := [Heading, Join(entries, "\n")];
    assert elements[1..] == [elements[1]];
    assert Join(elements[1..], "\n\n") == elements[1];
    assert Join(elements, "\n\n") == elements[0] + "\n\n" + Join(elements[1..], "\n\n");
    Join(elements, "\n\n")
  }

  /** The current end of the range: the given tag, else the client's
      latest tag or hash. */
  function CurrentRef(params: Params, gc: GitClient): (r: Traced<ClientCall, string>)
    ensures params.currentTag != "" ==> r == Traced(params.currentTag, [])
    ensures params.currentTag == "" ==> r == Traced(gc.latestTagOrHash, [LatestTagOrHashCall])
  {
    if params.currentTag != "" then Traced(params.currentTag, [])
    else Traced(gc.latestTagOrHash, [LatestTagOrHashCall])
  }

  /** The git range expression between two tags. */
  function TagRange(from: string, to: string): string
  {
    "tags/" + from + "..tags/" + to
  }

  /** The refs handed to `git log`. A given previous tag makes a tag range.
      Otherwise the client derives the previous ref once; a hash (the root
      commit fallback) is passed as a ref of its own next to the current
      one, anything else makes a tag range. */
  function RangeRefs(previous: string, tag: string, gc: GitClient): (r: Traced<ClientCall, Pair<seq<string>>>)
    ensures previous != "" ==> r == Traced(Pair([TagRange(previous, tag)], Nil), [])
    ensures previous == "" ==> r.calls == [PreviousTagCall(tag)]
    ensures r.value.err.Nil? <==> previous != "" || gc.previousTag(tag).err.Nil?
    ensures previous == "" && gc.previousTag(tag).err.Err? ==>
      r.value.err == Err(PreviousTagPrefix + gc.previousTag(tag).err.msg)
    ensures previous == "" && gc.previousTag(tag).err.Nil? && IsSHA1(gc.previousTag(tag).value) ==>
      r.value.value == [gc.previousTag(tag).value, tag]
    ensures previous == "" && gc.previousTag(tag).err.Nil? && !IsSHA1(gc.previousTag(tag).value) ==>
      r.value.value == [TagRange(gc.previousTag(tag).value, tag)]
  {
    if previous != "" then Traced(Pair([TagRange(previous, tag)], Nil), [])
    else
      var p := gc.previousTag(tag);
      if p.err.Err? then Traced(Pair([], Err(PreviousTagPrefix + p.err.msg)), [PreviousTagCall(tag)])
      else if IsSHA1(p.value) then Traced(Pair([p.value, tag], Nil), [PreviousTagCall(tag)])
      else Traced(Pair([TagRange(p.value, tag)], Nil), [PreviousTagCall(tag)])
  }

  /** Generates the changelog between the resolved refs. Every failure
      yields the empty text with an error, and the calls made on the
      client are returned in order. */
  function Changelog(params: Params, gc: GitClient, re: Regexp): (r: Traced<ClientCall, Pair<string>>)
    ensures |r.calls| >= 1 && r.calls[0] == IsRepoCall
    ensures !gc.isRepo ==> r == Traced(Pair("", Err(NotRepoMessage)), [IsRepoCall])
    ensures r.value.err.Err? ==> r.value.value == ""
    ensures r.value.err.Nil? ==> |r.value.value| >= 14 && r.value.value[..14] == "## Changelog\n\n"
    ensures LatestTagOrHashCall in r.calls <==> gc.isRepo && params.currentTag == ""
    ensures forall t :: PreviousTagCall(t) in r.calls ==> gc.isRepo && params.previousTag == ""
    ensures gc.isRepo && params.previousTag == "" ==> PreviousTagCall(CurrentRef(params, gc).value) in r.calls
    ensures r.value.err.Nil? ==> gc.isRepo && exists refs :: LogCall(refs) in r.calls
  {
    if !gc.isRepo then Traced(Pair("", Err(NotRepoMessage)), [IsRepoCall])
    else
      var current := CurrentRef(params, gc);
      var refs := RangeRefs(params.previousTag, current.value, gc);
      var resolved := [IsRepoCall] + current.calls + refs.calls;
      if refs.value.err.Err? then Traced(Pair("", refs.value.err), resolved)
      else
        var calls := resolved + [LogCall(refs.value.value)];
        var log := gc.log(refs.value.value);
        if log.err.Err? then Traced(Pair("", Err(LogPrefix + log.err.msg)), calls)
        else
          var filtered := FilterEntries(re, params.exclude, Entries(log.value));
          if filtered.err.Err? then Traced(Pair("", filtered.err), calls)
          else Traced(Pair(Render(filtered.value), Nil), calls)
  }

  /** A given previous tag is used as it is: the client is never asked
      for one, and the log is read for the tag range up to the current
      ref. */
  lemma ChangelogWithPreviousTag(params: Params, gc: GitClient, re: Regexp)
    requires gc.isRepo && params.previousTag != ""
    ensures var current := CurrentRef(params, gc);
      Changelog(params, gc, re).calls ==
        [IsRepoCall] + current.calls + [LogCall([TagRange(params.previousTag, current.value)])]
  {
  }

  /** Without a previous tag the client derives it from the current ref,
      exactly once. A failure ends the run with the prefixed error; a hash
      is passed as its own ref, anything else as a tag range. */
  lemma ChangelogDerivesPreviousTag(params: Params, gc: GitClient, re: Regexp)
    requires gc.isRepo && params.previousTag == ""
    ensures var current := CurrentRef(params, gc);
      var p := gc.previousTag(current.value);
      var r := Changelog(params, gc, re);
      var refs := if IsSHA1(p.value) then [p.value, current.value] else [TagRange(p.value, current.value)];
      && (p.err.Err? ==> r == Traced(Pair("", Err(PreviousTagPrefix + p.err.msg)), [IsRepoCall] + current.calls + [PreviousTagCall(current.value)]))
      && (p.err.Nil? ==> r.calls == [IsRepoCall] + current.calls + [PreviousTagCall(current.value), LogCall(refs)])
  {
  }

  /** A failing log query ends the run with the prefixed error. */
  lemma ChangelogLogFails(params: Params, gc: GitClient, re: Regexp)
    requires gc.isRepo
    requires params.previousTag != "" || gc.previousTag(CurrentRef(params, gc).value).err.Nil?
    requires gc.log(RangeRefs(params.previousTag, CurrentRef(params, gc).value, gc).value.value).err.Err?
    ensures var log := gc.log(RangeRefs(params.previousTag, CurrentRef(params, gc).value, gc).value.value);
      Changelog(params, gc, re).value == Pair("", Err(LogPrefix + log.err.msg))
  {
  }

  /** The text of a successful run: the log's entries that no exclusion
      pattern matches, under the heading; the first pattern that does not
      compile instead ends the run with its own error, unprefixed. */
  lemma ChangelogOutput(params: Params, gc: GitClient, re: Regexp)
    requires gc.isRepo
    requires params.previousTag != "" || gc.previousTag(CurrentRef(params, gc).value).err.Nil?
    requires gc.log(RangeRefs(params.previousTag, CurrentRef(params, gc).value, gc).value.value).err.Nil?
    ensures var log := gc.log(RangeRefs(params.previousTag, CurrentRef(params, gc).value, gc).value.value).value;
      var r := Changelog(params, gc, re).value;
      && ((forall k :: 0 <= k < |params.exclude| ==> re.compile(params.exclude[k]).Nil?) ==>
            r == Pair(Heading + "\n\n" + Join(Keep(re, Elements(params.exclude), Entries(log)), "\n"), Nil))
      && (forall k :: (0 <= k < |params.exclude| && re.compile(params.exclude[k]).Err? &&
                       (forall j :: 0 <= j < k ==> re.compile(params.exclude[j]).Nil?)) ==>
            r == Pair("", re.compile(params.exclude[k])))
  {
    var log := gc.log(RangeRefs(params.previousTag, CurrentRef(params, gc).value, gc).value.value).value;
    if forall k :: 0 <= k < |params.exclude| ==> re.compile(params.exclude[k]).Nil? {
      FilterEntriesIsKeep(re, params.exclude, Entries(log));
    }
    forall k | 0 <= k < |params.exclude| && re.compile(params.exclude[k]).Err? &&
        (forall j :: 0 <= j < k ==> re.compile(params.exclude[j]).Nil?)
      ensures Changelog(params, gc, re).value == Pair("", re.compile(params.exclude[k]))
    {
      FilterEntriesStopsAtFirstError(re, params.exclude, Entries(log), k);
    }
  }

  /** With no exclusion patterns, a newline-terminated log comes back
      verbatim, without its final newline, under the heading. */
  lemma ChangelogRoundTrip(params: Params, gc: GitClient, re: Regexp, body: string)
    requires gc.isRepo && params.exclude == []
    requires params.previousTag != "" || gc.previousTag(CurrentRef(params, gc).value).err.Nil?
    requires gc.log(RangeRefs(params.previousTag, CurrentRef(params, gc).value, gc).value.value) == Pair(body + "\n", Nil)
    ensures Changelog(params, gc, re).value == Pair("## Changelog\n\n" + body, Nil)
  {
    EntriesOfTerminatedLog(body);
  }

  /** A run that derives a previous tag which is not a hash, and reads a
      newline-terminated log for the tag range, asks the client exactly
      three things and renders the log under the heading. */
  lemma ChangelogDerivedTagRange(params: Params, gc: GitClient, re: Regexp, previous: string, body: string)
    requires gc.isRepo && params.currentTag != "" && params.previousTag == "" && params.exclude == []
    requires gc.previousTag(params.currentTag) == Pair(previous, Nil) && !IsSHA1(previous)
    requires gc.log([TagRange(previous, params.currentTag)]) == Pair(body + "\n", Nil)
    ensures Changelog(params, gc, re) ==
      Traced(Pair(Heading + "\n\n" + body, Nil),
             [IsRepoCall, PreviousTagCall(params.currentTag), LogCall([TagRange(previous, params.currentTag)])])
  {
    ChangelogRoundTrip(params, gc, re, body);
  }

  /** The production client: each interface method answered by the git
      command logic over one runner. */
  function ClientOf(run: Git.Runner): GitClient
  {
    GitClient(
      Git.IsRepo(run).value,
      Git.LatestTagOrHash(run).value,
      tag => Git.PreviousTag(run, tag).value,
      refs => Git.Log(run, refs).value)
  }

  /** The production client reports a repository when git prints
      `true` and a newline. */
  lemma ClientOfIsRepo(run: Git.Runner)
    requires run(Git.IsRepoArgs) == Pair("true\n", Nil)
    ensures ClientOf(run).isRepo
  {
    var out := run(Git.IsRepoArgs).value;
    assert out == "" + "true" + "\n";
    TrimSpacePadded("", "true", "\n");
  }

  /** The production client returns the tag git describes, without its
      newline. */
  lemma ClientOfPreviousTag(run: Git.Runner, tag: string, previous: string)
    requires run(Git.DescribeParentArgs(tag)) == Pair(previous + "\n", Nil)
    requires '\n' !in previous && '\'' !in previous
    ensures ClientOf(run).previousTag(tag) == Pair(previous, Nil)
  {
    Git.PreviousTagDescribed(run, tag, previous);
    assert ClientOf(run).previousTag(tag) == Git.PreviousTag(run, tag).value;
  }

  /** The production client passes the refs to `git log` and returns its
      output untouched. */
  lemma ClientOfLog(run: Git.Runner, refs: seq<string>)
    ensures ClientOf(run).log(refs) == run(Git.LogOptions + refs)
  {
  }

  /** An end-to-end run: current tag v0.3.0 given, no previous tag, the
      client deriving v0.2.0 as the tag before it (which ClientOfPreviousTag
      shows git's `v0.2.0` line yields). The log between the two tags comes
      back under the heading, and the client is asked nothing else. */
  lemma ChangelogScenario(gc: GitClient, re: Regexp, body: string)
    requires gc.isRepo
    requires gc.previousTag("v0.3.0") == Pair("v0.2.0", Nil)
    requires body == "5a359bb Second commit\nc57f56f Third commit"
    requires gc.log(["tags/v0.2.0..tags/v0.3.0"]) == Pair(body + "\n", Nil)
    ensures Changelog(Params("v0.3.0", "", [], ".", false), gc, re) ==
      Traced(Pair("## Changelog\n\n" + body, Nil),
             [IsRepoCall, PreviousTagCall("v0.3.0"), LogCall(["tags/v0.2.0..tags/v0.3.0"])])
  {
    var params := Params("v0.3.0", "", [], ".", false);
    assert !IsSHA1("v0.2.0");
    assert TagRange("v0.2.0", "v0.3.0") == "tags/v0.2.0..tags/v0.3.0";
    ChangelogDerivedTagRange(params, gc, re, "v0.2.0", body);
  }
}
