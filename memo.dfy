/**
 * The memo file format of the storage backend (`memo.rs`): a file is
 * `---\n<yaml>---\n<body>`, the YAML holding the memo's metadata. The YAML
 * (de)serialisation of the metadata is a parameter of the model: the text
 * `emitYaml` produces and the value `parseYaml` reads back are opaque here.
 */
module MemoFile {

  import opened Wrappers
  import opened TextUtil
  import Frontmatter

  /** A `chrono::DateTime<Utc>`; only passed around, never inspected. */
  type Timestamp = int

  datatype MemoMeta = MemoMeta(id: string, createdAt: Timestamp, updatedAt: Timestamp)

  datatype Memo = Memo(meta: MemoMeta, body: string)

  const Delimiter: string := "---"

  /** What `parse_memo_file` searches for after the opening delimiter: a newline and a delimiter. */
  const ClosingDelimiter: string := "\n---"

  /** `s.trim_start_matches('\n')`. */
  function TrimStartNewlines(s: string): (r: string)
    ensures |r| <= |s| && r == s[|s| - |r|..]
    ensures forall i :: 0 <= i < |s| - |r| ==> s[i] == '\n'
    ensures r != [] ==> r[0] != '\n'
  {
    if s != [] && s[0] == '\n' then TrimStartNewlines(s[1..]) else s
  }

  /**
   * `parse_memo_file(content, id)`. `parseYaml` is `serde_yaml::from_str`
   * (None for text that does not parse); `createdNow` and `updatedNow` are the
   * two `Utc::now()` readings the fallback metadata takes.
   */
  function ParseMemoFile(content: string, id: string, parseYaml: string -> Option<MemoMeta>,
                         createdNow: Timestamp, updatedNow: Timestamp): Option<Memo>
  {
    if !StartsWith(content, Delimiter) then None
    else
      var rest := content[|Delimiter|..];
      match Find(rest, ClosingDelimiter)
      case None => None
      case Some(endIdx) =>
        var yamlStr := rest[..endIdx];
        var bodyStart := endIdx + 1 + |Delimiter|;
        var body := TrimStartNewlines(rest[bodyStart..]);
        var meta := parseYaml(yamlStr).GetOr(MemoMeta(id, createdNow, updatedNow));
        Some(Memo(meta, body))
  }

  /** The YAML text `serialize_memo` writes: the emitted text, or "" when emitting fails. */
  function YamlText(meta: MemoMeta, emitYaml: MemoMeta -> Option<string>): string {
    emitYaml(meta).GetOr("")
  }

  /** `serialize_memo(memo)`: `format!("---\n{}---\n{}", yaml, memo.body)`. */
  function SerializeMemo(memo: Memo, emitYaml: MemoMeta -> Option<string>): (r: string)
    ensures StartsWith(r, Delimiter + "\n")
    ensures |r| == |YamlText(memo.meta, emitYaml)| + 8 + |memo.body|
    ensures r[4..4 + |YamlText(memo.meta, emitYaml)|] == YamlText(memo.meta, emitYaml)
    ensures r[|r| - |memo.body| - 4..|r| - |memo.body|] == "---\n" && r[|r| - |memo.body|..] == memo.body
  {
    "---\n" + YamlText(memo.meta, emitYaml) + "---\n" + memo.body
  }

  /** `extract_title(body)`: the loop over `body.lines()` with Rust's `trim`. */
  function ExtractTitle(body: string): string {
    Frontmatter.TitleFromLines(Rust, Lines(body))
  }

  /**
   * The body is what follows the first closing delimiter after the opening
   * one, with its leading newlines stripped; delimiter lines further on stay in
   * the body. A YAML text that does not parse gives the fallback metadata and
   * never makes the whole parse fail.
   */
  lemma {:induction false} ParseAtFirstDelimiter(yaml: string, tail: string, id: string,
                              parseYaml: string -> Option<MemoMeta>, createdNow: Timestamp, updatedNow: Timestamp)
    requires forall j :: 0 <= j < |yaml| ==> !MatchesAt(yaml + ClosingDelimiter + tail, ClosingDelimiter, j)
    ensures ParseMemoFile(Delimiter + yaml + ClosingDelimiter + tail, id, parseYaml, createdNow, updatedNow)
         == Some(Memo(parseYaml(yaml).GetOr(MemoMeta(id, createdNow, updatedNow)), TrimStartNewlines(tail)))
  {
    var content := Delimiter + yaml + ClosingDelimiter + tail;
    var rest := yaml + ClosingDelimiter + tail;
    assert content[|Delimiter|..] == rest;
    assert MatchesAt(rest, ClosingDelimiter, |yaml|) by {
      assert rest[|yaml|..|yaml| + 4] == ClosingDelimiter;
    }
    assert Find(rest, ClosingDelimiter) == Some(|yaml|);
    assert rest[..|yaml|] == yaml;
    assert rest[|yaml| + 4..] == tail;
  }

  /**
   * Parsing fails exactly when the file does not start with `---` or no
   * `\n---` follows that opening delimiter.
   */
  lemma {:induction false} ParseFailsIff(content: string, id: string, parseYaml: string -> Option<MemoMeta>,
                                         createdNow: Timestamp, updatedNow: Timestamp)
    ensures ParseMemoFile(content, id, parseYaml, createdNow, updatedNow).None? <==>
      !StartsWith(content, Delimiter) || !Contains(content[|Delimiter|..], ClosingDelimiter)
  {
    if StartsWith(content, Delimiter) {
      var rest := content[|Delimiter|..];
      match Find(rest, ClosingDelimiter)
      case None =>
      case Some(endIdx) =>
        assert MatchesAt(rest, ClosingDelimiter, endIdx);
    }
  }

  /** A file that does not start with `---` does not parse. */
  lemma {:induction false} ParseNeedsOpeningDelimiter(content: string, id: string, parseYaml: string -> Option<MemoMeta>,
                                   createdNow: Timestamp, updatedNow: Timestamp)
    requires !StartsWith(content, Delimiter)
    ensures ParseMemoFile(content, id, parseYaml, createdNow, updatedNow) == None
  {
  }

  /** No closing delimiter after the opening one: no memo. */
  lemma {:induction false} ParseNeedsClosingDelimiter(yamlAndBody: string, id: string, parseYaml: string -> Option<MemoMeta>,
                                   createdNow: Timestamp, updatedNow: Timestamp)
    requires forall j :: 0 <= j <= |yamlAndBody| ==> !MatchesAt(yamlAndBody, ClosingDelimiter, j)
    ensures ParseMemoFile(Delimiter + yamlAndBody, id, parseYaml, createdNow, updatedNow) == None
  {
    assert (Delimiter + yamlAndBody)[|Delimiter|..] == yamlAndBody;
  }

  /** Whether a file parses, and the body it gives, do not depend on the YAML parser. */
  lemma {:induction false} ParseIndependentOfYaml(content: string, id: string, parseA: string -> Option<MemoMeta>,
                               parseB: string -> Option<MemoMeta>, createdNow: Timestamp, updatedNow: Timestamp)
    ensures var a := ParseMemoFile(content, id, parseA, createdNow, updatedNow);
            var b := ParseMemoFile(content, id, parseB, createdNow, updatedNow);
            a.Some? == b.Some? && (a.Some? ==> a.value.body == b.value.body)
  {
    if StartsWith(content, Delimiter) && Find(content[|Delimiter|..], ClosingDelimiter).Some? {
      ParseFound(content, id, parseA, createdNow, updatedNow);
      ParseFound(content, id, parseB, createdNow, updatedNow);
    } else {
      ParseNotFound(content, id, parseA, createdNow, updatedNow);
      ParseNotFound(content, id, parseB, createdNow, updatedNow);
    }
  }

  /** Metadata that does not parse falls back to the given id and the current time. */
  lemma {:induction false} UnparsedYamlFallsBack(content: string, id: string, createdNow: Timestamp, updatedNow: Timestamp)
    ensures var r := ParseMemoFile(content, id, RejectAll, createdNow, updatedNow);
            r.Some? ==> r.value.meta == MemoMeta(id, createdNow, updatedNow)
  {
    if StartsWith(content, Delimiter) && Find(content[|Delimiter|..], ClosingDelimiter).Some? {
      ParseFound(content, id, RejectAll, createdNow, updatedNow);
    } else {
      ParseNotFound(content, id, RejectAll, createdNow, updatedNow);
    }
  }

  /** A YAML parser that accepts no text. */
  const RejectAll: string -> Option<MemoMeta> := (yaml: string) => None

  /** Without an opening delimiter and a closing one after it, there is no memo. */
  lemma {:induction false} ParseNotFound(content: string, id: string, parseYaml: string -> Option<MemoMeta>,
                                         createdNow: Timestamp, updatedNow: Timestamp)
    requires !StartsWith(content, Delimiter) || Find(content[|Delimiter|..], ClosingDelimiter).None?
    ensures ParseMemoFile(content, id, parseYaml, createdNow, updatedNow).None?
  {
  }

  /** Once the closing delimiter is found, the memo is the parsed YAML before it and the text after it. */
  lemma {:induction false} ParseFound(content: string, id: string, parseYaml: string -> Option<MemoMeta>,
                                      createdNow: Timestamp, updatedNow: Timestamp)
    requires StartsWith(content, Delimiter) && Find(content[|Delimiter|..], ClosingDelimiter).Some?
    ensures
      var rest := content[|Delimiter|..];
      var endIdx := Find(rest, ClosingDelimiter).value;
      var r := ParseMemoFile(content, id, parseYaml, createdNow, updatedNow);
      && endIdx + |ClosingDelimiter| <= |rest|
      && r.Some?
      && r.value.meta == parseYaml(rest[..endIdx]).GetOr(MemoMeta(id, createdNow, updatedNow))
      && r.value.body == TrimStartNewlines(rest[endIdx + |ClosingDelimiter|..])
  {
    var rest := content[|Delimiter|..];
    var endIdx := Find(rest, ClosingDelimiter).value;
    assert MatchesAt(rest, ClosingDelimiter, endIdx);
  }

  /**
   * The hypothesis that `"\n" + yaml` holds no closing delimiter already
   * excludes a YAML text that starts with `---`.
   */
  lemma {:induction false} NoDelimiterExcludesLeadingDashes(yaml: string)
    requires !Contains("\n" + yaml, ClosingDelimiter)
    ensures !StartsWith(yaml, Delimiter)
  {
    if StartsWith(yaml, Delimiter) {
      assert ("\n" + yaml)[..4] == ClosingDelimiter;
      assert MatchesAt("\n" + yaml, ClosingDelimiter, 0);
    }
  }

  /**
   * Round trip: parsing a serialised memo gives back its body with leading
   * newlines stripped, provided the YAML text ends with a newline and holds no
   * line starting with `---`. The parser is handed the YAML text with a
   * newline in front and without its final newline; the metadata comes back
   * when the parser reads that text as the original metadata.
   */
  lemma {:induction false} SerializeParseRoundTrip(memo: Memo, emitYaml: MemoMeta -> Option<string>, id: string,
                                parseYaml: string -> Option<MemoMeta>, createdNow: Timestamp, updatedNow: Timestamp)
    requires var y := YamlText(memo.meta, emitYaml); y != [] && y[|y| - 1] == '\n'
    requires !Contains("\n" + YamlText(memo.meta, emitYaml), ClosingDelimiter)
    ensures var y := YamlText(memo.meta, emitYaml);
      (ParseMemoFile(SerializeMemo(memo, emitYaml), id, parseYaml, createdNow, updatedNow)
       == Some(Memo(parseYaml("\n" + y[..|y| - 1]).GetOr(MemoMeta(id, createdNow, updatedNow)),
                    TrimStartNewlines(memo.body))))
  {
    var y := YamlText(memo.meta, emitYaml);
    SerializedShape(memo, emitYaml);
    NoEarlyClosingDelimiter(y, "\n" + memo.body);
    ParseAtFirstDelimiter("\n" + y[..|y| - 1], "\n" + memo.body, id, parseYaml, createdNow, updatedNow);
    NewlineThenTrim(memo.body);
  }

  /** A newline in front of the body is stripped along with the body's own. */
  lemma {:induction false} NewlineThenTrim(body: string)
    ensures TrimStartNewlines("\n" + body) == TrimStartNewlines(body)
  {
    assert ("\n" + body)[1..] == body;
  }

  /** A YAML text ending with a newline: the file reads as `---`, `"\n"` + the rest of the YAML, `\n---`, `"\n"` + body. */
  lemma {:induction false} SerializedShape(memo: Memo, emitYaml: MemoMeta -> Option<string>)
    requires var y := YamlText(memo.meta, emitYaml); y != [] && y[|y| - 1] == '\n'
    ensures var y := YamlText(memo.meta, emitYaml);
      SerializeMemo(memo, emitYaml) == Delimiter + ("\n" + y[..|y| - 1]) + ClosingDelimiter + ("\n" + memo.body)
  {
    var y := YamlText(memo.meta, emitYaml);
    assert y == y[..|y| - 1] + "\n";
  }

  /** No `\n---` starts inside `"\n" + yaml` (its final newline moved to the front) when none occurs in `"\n" + y`. */
  lemma {:induction false} NoEarlyClosingDelimiter(y: string, tail: string)
    requires y != [] && y[|y| - 1] == '\n'
    requires !Contains("\n" + y, ClosingDelimiter)
    ensures var yaml := "\n" + y[..|y| - 1];
      forall j :: 0 <= j < |yaml| ==> !MatchesAt(yaml + ClosingDelimiter + tail, ClosingDelimiter, j)
  {
    var yaml := "\n" + y[..|y| - 1];
    forall j | 0 <= j < |yaml| ensures !MatchesAt(yaml + ClosingDelimiter + tail, ClosingDelimiter, j) {
      NoClosingDelimiterAt(y, tail, j);
    }
  }

  /** One start index of the previous lemma. */
  lemma {:induction false} NoClosingDelimiterAt(y: string, tail: string, j: nat)
    requires y != [] && y[|y| - 1] == '\n'
    requires !Contains("\n" + y, ClosingDelimiter)
    requires j < |y|
    ensures !MatchesAt("\n" + y[..|y| - 1] + ClosingDelimiter + tail, ClosingDelimiter, j)
  {
    var rest := "\n" + y[..|y| - 1] + ClosingDelimiter + tail;
    assert rest[..|y| + 1] == "\n" + y;
    if j + 4 <= |y| + 1 {
      assert !MatchesAt("\n" + y, ClosingDelimiter, j);
      assert ("\n" + y)[j..j + 4] == rest[j..j + 4];
    } else if j + 4 <= |rest| {
      // a match reaching past the YAML text would need a '-' where its final newline is
      assert rest[j..j + 4][|y| - j] == rest[|y|] == '\n';
      assert ClosingDelimiter[|y| - j] == '-';
    }
  }

  /** With a body that does not start with a newline, the whole memo round-trips. */
  lemma {:induction false} MemoRoundTrip(memo: Memo, emitYaml: MemoMeta -> Option<string>, id: string,
                      parseYaml: string -> Option<MemoMeta>, createdNow: Timestamp, updatedNow: Timestamp)
    requires var y := YamlText(memo.meta, emitYaml); y != [] && y[|y| - 1] == '\n'
    requires !Contains("\n" + YamlText(memo.meta, emitYaml), ClosingDelimiter)
    requires memo.body == [] || memo.body[0] != '\n'
    requires var y := YamlText(memo.meta, emitYaml); parseYaml("\n" + y[..|y| - 1]) == Some(memo.meta)
    ensures ParseMemoFile(SerializeMemo(memo, emitYaml), id, parseYaml, createdNow, updatedNow) == Some(memo)
  {
    SerializeParseRoundTrip(memo, emitYaml, id, parseYaml, createdNow, updatedNow);
  }

  /** When emitting the YAML fails, the file still parses and the body still round-trips. */
  lemma {:induction false} EmptyYamlRoundTrip(memo: Memo, emitYaml: MemoMeta -> Option<string>, id: string,
                           parseYaml: string -> Option<MemoMeta>, createdNow: Timestamp, updatedNow: Timestamp)
    requires emitYaml(memo.meta).None?
    ensures ParseMemoFile(SerializeMemo(memo, emitYaml), id, parseYaml, createdNow, updatedNow)
         == Some(Memo(parseYaml("").GetOr(MemoMeta(id, createdNow, updatedNow)), TrimStartNewlines(memo.body)))
  {
    assert SerializeMemo(memo, emitYaml) == Delimiter + "" + ClosingDelimiter + ("\n" + memo.body);
    ParseAtFirstDelimiter("", "\n" + memo.body, id, parseYaml, createdNow, updatedNow);
    NewlineThenTrim(memo.body);
  }

  /**
   * `extract_title` and `extractTitle` agree on every body without U+FEFF and
   * U+0085, the only characters on which Rust's and JavaScript's `trim` differ:
   * splitting by `lines()` instead of `split("\n")` changes nothing the title
   * derivation looks at.
   */
  lemma {:induction false} ExtractTitleMatchesFrontend(body: string)
    requires forall i :: 0 <= i < |body| ==> SameSpace(body[i])
    ensures ExtractTitle(body) == Frontmatter.ExtractTitle(body)
    decreases |body|
  {
    var i := IndexOf(body, '\n');
    if body == [] {
      assert Split(body, '\n') == [[]];
      assert Trim(Js, []) == [];
    } else if i == |body| {
      SingleLineTitlesAgree(body);
    } else {
      var tail := body[i + 1..];
      assert forall k :: 0 <= k < |tail| ==> SameSpace(tail[k]) by {
        assert forall k :: 0 <= k < |tail| ==> tail[k] == body[i + 1 + k];
      }
      ExtractTitleMatchesFrontend(tail);
      FirstLineTitlesAgree(body, i);
    }
  }

  /** A body without a newline is one line to both loops. */
  lemma {:induction false} SingleLineTitlesAgree(body: string)
    requires forall i :: 0 <= i < |body| ==> SameSpace(body[i])
    requires body != [] && IndexOf(body, '\n') == |body|
    ensures ExtractTitle(body) == Frontmatter.ExtractTitle(body)
  {
    // the last line keeps a trailing '\r' in `lines()`, which `trim` then removes
    LineTitlesAgree(body);
    TrimIgnoresCarriageReturn(body);
    TitleConsAgree(body, body, [], []);
    assert Lines(body) == [body] + [];
    assert Split(body, '\n') == [body] + [];
  }

  /** The first line decides alike in both loops, and the rest agrees by hypothesis. */
  lemma {:induction false} FirstLineTitlesAgree(body: string, i: nat)
    requires forall i :: 0 <= i < |body| ==> SameSpace(body[i])
    requires i == IndexOf(body, '\n') < |body|
    requires ExtractTitle(body[i + 1..]) == Frontmatter.ExtractTitle(body[i + 1..])
    ensures ExtractTitle(body) == Frontmatter.ExtractTitle(body)
  {
    var line := body[..i];
    var tail := body[i + 1..];
    LinesAtFirst(body, i);
    SplitAtFirst(body, '\n', i);
    assert forall k :: 0 <= k < |line| ==> SameSpace(line[k]) by {
      assert forall k :: 0 <= k < |line| ==> line[k] == body[k];
    }
    LineTitlesAgree(line);
    TitleConsAgree(line, StripCarriageReturn(line), Split(tail, '\n'), Lines(tail));
  }

  /** The `split("\n")` line and its `lines()` form trim alike and give the same line title. */
  lemma {:induction false} LineTitlesAgree(line: string)
    requires forall i :: 0 <= i < |line| ==> SameSpace(line[i])
    ensures Trim(Js, line) == Trim(Rust, StripCarriageReturn(line))
    ensures Frontmatter.LineTitle(Js, Trim(Js, line)) == Frontmatter.LineTitle(Rust, Trim(Js, line))
  {
    LineTrimsAgree(line);
    TrimSameSpace(Js, line);
    Frontmatter.LineTitleFlavorsAgree(Trim(Js, line));
  }

  /** One step of the two title loops: equal decisions on the first line, equal results on the rest. */
  lemma {:induction false} TitleConsAgree(jsLine: string, rustLine: string, jsRest: seq<string>, rustRest: seq<string>)
    requires Trim(Js, jsLine) == Trim(Rust, rustLine)
    requires Frontmatter.LineTitle(Js, Trim(Js, jsLine)) == Frontmatter.LineTitle(Rust, Trim(Js, jsLine))
    requires Frontmatter.TitleFromLines(Js, jsRest) == Frontmatter.TitleFromLines(Rust, rustRest)
    ensures Frontmatter.TitleFromLines(Js, [jsLine] + jsRest) == Frontmatter.TitleFromLines(Rust, [rustLine] + rustRest)
  {
    assert ([jsLine] + jsRest)[1..] == jsRest;
    assert ([rustLine] + rustRest)[1..] == rustRest;
  }

  /** A line split by `split("\n")` and trimmed by JavaScript trims as its `lines()` form does in Rust. */
  lemma {:induction false} LineTrimsAgree(line: string)
    requires forall i :: 0 <= i < |line| ==> SameSpace(line[i])
    ensures Trim(Js, line) == Trim(Rust, StripCarriageReturn(line))
  {
    TrimFlavorsAgree(line);
    TrimIgnoresCarriageReturn(line);
  }

  /** The `\r` that `lines()` removes is whitespace to `trim` anyway. */
  lemma {:induction false} TrimIgnoresCarriageReturn(line: string)
    ensures Trim(Rust, StripCarriageReturn(line)) == Trim(Rust, line)
  {
    if line != [] && line[|line| - 1] == '\r' {
      var stripped := line[..|line| - 1];
      assert line == stripped + ['\r'];
      TrimAppendSpace(Rust, stripped, '\r');
    }
  }
}
