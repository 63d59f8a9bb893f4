/** The HTML variant: CPU readings are the texts of the CPU tags with every
    `%` removed, skipping the texts that do not parse. */
module HtmlParser {
  import opened Wrappers
  import opened FilterMaps
  import opened Comparator

  /** A report file as the HTML parser sees it: its path and the texts of its
      CPU tags in document order. */
  datatype HtmlFile = HtmlFile(path: Path, tags: seq<string>)

  /** `text.replace('%', '')`. */
  function StripPercent(s: string): (r: string)
    ensures '%' !in r
    ensures |r| <= |s|
  {
    if |s| == 0 then []
    else StripPercent(s[..|s| - 1]) + (if s[|s| - 1] == '%' then [] else [s[|s| - 1]])
  }

  /** Stripping a concatenation strips each part, so every character other
      than `%` keeps its place relative to the others. */
  lemma {:induction false} StripPercentAppend(a: string, b: string)
    ensures StripPercent(a + b) == StripPercent(a) + StripPercent(b)
    decreases |b|
  {
    if |b| == 0 {
      assert a + b == a;
    } else {
      var n := |b| - 1;
      assert (a + b)[..|a + b| - 1] == a + b[..n];
      StripPercentAppend(a, b[..n]);
    }
  }

  /** Text without `%` is passed to the parser unchanged. */
  lemma {:induction false} StripPercentKeeps(s: string)
    requires '%' !in s
    ensures StripPercent(s) == s
  {
    if |s| > 0 {
      var n := |s| - 1;
      var init := s[..n];
      assert '%' !in init by {
        assert forall j :: 0 <= j < n ==> init[j] == s[j];
      }
      StripPercentKeeps(init);
      assert s[n] != '%';
      assert StripPercent(s) == init + [s[n]];
      assert init + [s[n]] == s;
    }
  }

  /** Stripping twice is stripping once. */
  lemma StripPercentIdempotent(s: string)
    ensures StripPercent(StripPercent(s)) == StripPercent(s)
  {
    StripPercentKeeps(StripPercent(s));
  }

  /** Exactly the `%` characters are removed: every other character keeps its
      number of occurrences. */
  lemma {:induction false} StripPercentCounts(s: string)
    ensures forall c :: c != '%' ==> multiset(StripPercent(s))[c] == multiset(s)[c]
  {
    if |s| > 0 {
      var n := |s| - 1;
      var init := s[..n];
      StripPercentCounts(init);
      var last := if s[n] == '%' then [] else [s[n]];
      assert StripPercent(s) == StripPercent(init) + last;
      assert s == init + [s[n]];
      forall c | c != '%'
        ensures multiset(StripPercent(s))[c] == multiset(s)[c]
      {
        assert multiset(StripPercent(s)) == multiset(StripPercent(init)) + multiset(last);
        assert multiset(s) == multiset(init) + multiset{s[n]};
      }
    }
  }

  /** The reading one tag contributes. */
  function TagReader(parse: NumberParser): string -> Option<real>
  {
    text => parse(StripPercent(text))
  }

  /** The CPU readings of one document. */
  function Extract(tags: seq<string>, parse: NumberParser): seq<real>
  {
    FilterMap(tags, TagReader(parse))
  }

  /** The readings of a document are the parsed `%`-stripped tag texts that
      parse, in tag order, at most one per tag; a tag is skipped exactly when
      its stripped text does not parse. */
  lemma {:induction false} ExtractSpec(tags: seq<string>, parse: NumberParser)
    ensures |Extract(tags, parse)| == |Kept(tags, TagReader(parse))| <= |tags|
    ensures forall m :: 0 <= m < |Kept(tags, TagReader(parse))| ==>
              Kept(tags, TagReader(parse))[m] < |tags| &&
              parse(StripPercent(tags[Kept(tags, TagReader(parse))[m]])) == Some(Extract(tags, parse)[m])
    ensures forall m, m' :: 0 <= m < m' < |Kept(tags, TagReader(parse))| ==>
              Kept(tags, TagReader(parse))[m] < Kept(tags, TagReader(parse))[m']
    ensures forall i :: 0 <= i < |tags| ==>
              (parse(StripPercent(tags[i])).Some? <==> i in Kept(tags, TagReader(parse)))
  {
    FilterMapKept(tags, TagReader(parse));
  }

  /** A tag whose text does not parse contributes nothing, and the tags after
      it are still processed. */
  lemma SkipsUnparseable(before: seq<string>, tag: string, after: seq<string>, parse: NumberParser)
    requires parse(StripPercent(tag)).None?
    ensures Extract(before + [tag] + after, parse) == Extract(before, parse) + Extract(after, parse)
  {
    var f := TagReader(parse);
    assert FilterMap(before + [tag], f) == FilterMap(before, f) by {
      FilterMapAppend(before, [tag], f);
      assert f(tag) == None;
      assert [tag][..0] == [];
      assert FilterMap([tag], f) == [];
    }
    FilterMapAppend(before + [tag], after, f);
  }

  /** The readings of every report file, paired with its path. */
  function FileReports(files: seq<HtmlFile>, parse: NumberParser): (rs: seq<Report>)
    ensures |rs| == |files|
    ensures forall k :: 0 <= k < |files| ==>
              rs[k] == Report(files[k].path, Extract(files[k].tags, parse))
  {
    seq(|files|, k requires 0 <= k < |files| => Report(files[k].path, Extract(files[k].tags, parse)))
  }

  /** `extract_cpu_usage`: strips and parses each tag text, appending the
      values that parse and skipping the others. */
  method ExtractCpuUsage(tags: seq<string>, parse: NumberParser) returns (cpuData: seq<real>)
    ensures cpuData == Extract(tags, parse)
  {
    cpuData := [];
    var i := 0;
    while i < |tags|
      invariant 0 <= i <= |tags|
      invariant cpuData == Extract(tags[..i], parse)
    {
      var cpuUsage := parse(StripPercent(tags[i]));
      if cpuUsage.Some? {
        cpuData := cpuData + [cpuUsage.value];
      }
      assert tags[..i + 1][..i] == tags[..i];
      i := i + 1;
    }
    assert tags[..i] == tags;
  }

  /** `compare_reports`: extracts each file in turn, compares it with the
      previous file's readings when those are non-empty, and then makes it
      the previous file. */
  method CompareReports(files: seq<HtmlFile>, parse: NumberParser) returns (results: seq<Finding>)
    ensures results == Chain(FileReports(files, parse))
    ensures |files| < 2 ==> results == []
  {
    ghost var rs := FileReports(files, parse);
    var previousData: Option<seq<real>> := None;
    results := [];
    var k := 0;
    while k < |files|
      invariant 0 <= k <= |files|
      invariant previousData == if k == 0 then None else Some(rs[k - 1].readings)
      invariant results == Chain(rs[..k])
    {
      var currentData := ExtractCpuUsage(files[k].tags, parse);
      assert rs[k] == Report(files[k].path, currentData);
      ChainStep(rs, k);
      if previousData.Some? && |previousData.value| > 0 {
        var found := ComparePair(previousData.value, currentData, files[k].path);
        results := results + found;
      }
      previousData := Some(currentData);
      k := k + 1;
    }
    assert rs[..k] == rs;
    assert |files| < 2 ==> |rs| < 2;
  }
}
