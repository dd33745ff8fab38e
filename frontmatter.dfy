/**
 * Title derivation from a memo body (`extractTitle`): the first line that is
 * not blank after trimming decides the title; a `# ` heading gives its text,
 * any other line its first 50 characters, and an all-blank body the
 * placeholder "Untitled".
 */
module Frontmatter {

  import opened TextUtil

  const Placeholder: string := "Untitled"
  const MaxTitleLength: nat := 50
  const HeadingMarker: string := "# "

  /** The title one non-blank trimmed line gives. */
  function LineTitle(f: Flavor, trimmed: string): string {
    if StartsWith(trimmed, HeadingMarker) then Trim(f, trimmed[|HeadingMarker|..])
    else trimmed[..if |trimmed| < MaxTitleLength then |trimmed| else MaxTitleLength]
  }

  /**
   * The loop over the lines: the first line whose trimmed text is a heading
   * or non-empty returns; when none does, the placeholder.
   */
  function TitleFromLines(f: Flavor, lines: seq<string>): (r: string)
    ensures r != []
  {
    if lines == [] then Placeholder
    else
      var trimmed := Trim(f, lines[0]);
      if StartsWith(trimmed, HeadingMarker) then
        HeadingNotBlank(f, lines[0]);
        LineTitle(f, trimmed)
      else if |trimmed| > 0 then LineTitle(f, trimmed)
      else TitleFromLines(f, lines[1..])
  }

  /** `extractTitle(markdown)`: the loop over `markdown.split("\n")` with JavaScript's `trim`. */
  function ExtractTitle(markdown: string): string {
    TitleFromLines(Js, Split(markdown, '\n'))
  }

  /**
   * A trimmed line that starts with "# " ends with a non-whitespace character,
   * so its remainder after the marker still trims to something non-empty.
   */
  lemma {:induction false} HeadingNotBlank(f: Flavor, line: string)
    requires StartsWith(Trim(f, line), HeadingMarker)
    ensures Trim(f, Trim(f, line)[|HeadingMarker|..]) != []
  {
    var t := Trim(f, line);
    TrimEndsNonSpace(f, line);
    var rest := t[2..];
    assert rest[|rest| - 1] == t[|t| - 1];
    TrimEmptyIff(f, rest);
  }

  /** On a line without U+FEFF and U+0085 both flavours derive the same title. */
  lemma {:induction false} LineTitleFlavorsAgree(trimmed: string)
    requires forall i :: 0 <= i < |trimmed| ==> SameSpace(trimmed[i])
    ensures LineTitle(Js, trimmed) == LineTitle(Rust, trimmed)
  {
    if StartsWith(trimmed, HeadingMarker) {
      TrimFlavorsAgree(trimmed[2..]);
    }
  }

  /**
   * The title is decided by the first line that is not blank after trimming:
   * all lines before it are skipped, and the lines after it do not matter.
   */
  lemma {:induction false} TitleFromFirstNonBlank(f: Flavor, lines: seq<string>, i: nat)
    requires i < |lines|
    requires forall j :: 0 <= j < i ==> Trim(f, lines[j]) == []
    requires Trim(f, lines[i]) != []
    ensures TitleFromLines(f, lines) == LineTitle(f, Trim(f, lines[i]))
  {
    if i > 0 {
      assert Trim(f, lines[0]) == [];
      TitleFromFirstNonBlank(f, lines[1..], i - 1);
    }
  }

  /** When every line is blank the title is the placeholder. */
  lemma {:induction false} TitleOfBlankLines(f: Flavor, lines: seq<string>)
    requires forall j :: 0 <= j < |lines| ==> AllSpace(f, lines[j])
    ensures TitleFromLines(f, lines) == Placeholder
  {
    if lines != [] {
      TrimEmptyIff(f, lines[0]);
      TitleOfBlankLines(f, lines[1..]);
    }
  }

  /**
   * When the first line that is not blank reads `# h` after trimming, the title
   * is `h` trimmed again, however long it is.
   */
  lemma {:induction false} HeadingTitle(markdown: string, i: nat, h: string)
    requires i < |Split(markdown, '\n')|
    requires forall j :: 0 <= j < i ==> Trim(Js, Split(markdown, '\n')[j]) == []
    requires Trim(Js, Split(markdown, '\n')[i]) == HeadingMarker + h
    ensures ExtractTitle(markdown) == Trim(Js, h)
  {
    TitleFromFirstNonBlank(Js, Split(markdown, '\n'), i);
    assert (HeadingMarker + h)[|HeadingMarker|..] == h;
  }

  /**
   * When the first line that is not blank is no heading, the title is that
   * trimmed line cut to its first 50 characters.
   */
  lemma {:induction false} PlainTitle(markdown: string, i: nat)
    requires i < |Split(markdown, '\n')|
    requires forall j :: 0 <= j < i ==> Trim(Js, Split(markdown, '\n')[j]) == []
    requires Trim(Js, Split(markdown, '\n')[i]) != []
    requires !StartsWith(Trim(Js, Split(markdown, '\n')[i]), HeadingMarker)
    ensures var t := Trim(Js, Split(markdown, '\n')[i]);
      && |ExtractTitle(markdown)| == (if |t| < MaxTitleLength then |t| else MaxTitleLength)
      && ExtractTitle(markdown) == t[..|ExtractTitle(markdown)|]
  {
    TitleFromFirstNonBlank(Js, Split(markdown, '\n'), i);
  }

  /** An empty body, or one of blanks only, has the placeholder title. */
  lemma {:induction false} BlankBodyTitle(markdown: string)
    requires AllSpace(Js, markdown)
    ensures ExtractTitle(markdown) == Placeholder
  {
    var lines := Split(markdown, '\n');
    SplitJoin(markdown, '\n');
    forall j | 0 <= j < |lines| ensures AllSpace(Js, lines[j]) {
      JoinedPieceInside(lines, '\n', j);
      forall k | 0 <= k < |lines[j]| ensures IsSpace(Js, lines[j][k]) {
        assert lines[j][k] in markdown;
      }
    }
    TitleOfBlankLines(Js, lines);
  }

  /** Every character of a piece occurs in the joined string. */
  lemma {:induction false} JoinedPieceInside(pieces: seq<string>, sep: char, j: nat)
    requires j < |pieces|
    ensures forall c :: c in pieces[j] ==> c in Join(pieces, sep)
  {
    if |pieces| > 1 {
      if j > 0 {
        JoinedPieceInside(pieces[1..], sep, j - 1);
      }
    }
  }

  /** A heading line gives the heading text. */
  lemma {:induction false} ExampleHeadingTitle()
    ensures ExtractTitle("# Hello\nworld") == "Hello"
  {
    assert "# Hello\nworld" == "# Hello" + ['\n'] + "world";
    SplitTwo("# Hello", "world", '\n');
    ExampleHeadingLineTitle();
  }

  lemma {:induction false} ExampleHeadingLineTitle()
    ensures TitleFromLines(Js, ["# Hello", "world"]) == "Hello"
  {
    var lines := ["# Hello", "world"];
    var line := lines[0];
    assert line[0] == '#' && line[|line| - 1] == 'o';
    TrimNoEndSpace(Js, line);
    TitleFromFirstNonBlank(Js, lines, 0);
    var rest := "Hello";
    assert line[2..] == rest;
    assert rest[0] == 'H' && rest[|rest| - 1] == 'o';
    TrimNoEndSpace(Js, rest);
    assert StartsWith(line, HeadingMarker);
  }

  /** Leading blank lines are skipped and the first non-blank line is trimmed. */
  lemma {:induction false} ExamplePlainTitle()
    ensures ExtractTitle("   \nsome line") == "some line"
  {
    assert "   \nsome line" == "   " + ['\n'] + "some line";
    SplitTwo("   ", "some line", '\n');
    ExamplePlainLineTitle();
  }

  lemma {:induction false} ExamplePlainLineTitle()
    ensures TitleFromLines(Js, ["   ", "some line"]) == "some line"
  {
    var lines := ["   ", "some line"];
    assert AllSpace(Js, lines[0]);
    TrimEmptyIff(Js, lines[0]);
    var line := lines[1];
    assert line[0] == 's' && line[|line| - 1] == 'e';
    TrimNoEndSpace(Js, line);
    TitleFromFirstNonBlank(Js, lines, 1);
    assert !StartsWith(line, HeadingMarker);
    assert line[..|line|] == line;
  }
}
