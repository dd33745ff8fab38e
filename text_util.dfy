/**
 * String helpers shared by the title derivation and the memo file format:
 * whitespace trimming as JavaScript's `String.prototype.trim` and Rust's
 * `str::trim` define it, line splitting (`split("\n")` and `str::lines`),
 * prefix tests and the first occurrence of a pattern (`str::find`).
 */
module TextUtil {

  import opened Wrappers

  /** Which language's notion of whitespace a trim uses. */
  datatype Flavor = Js | Rust

  /** Characters both languages treat as whitespace. */
  predicate IsCommonSpace(c: char) {
    || ('\t' <= c <= '\r')   // tab, line feed, vertical tab, form feed, carriage return
    || c == ' '
    || c == '\U{A0}'
    || c == '\U{1680}'
    || ('\U{2000}' <= c <= '\U{200A}')
    || c == '\U{2028}'
    || c == '\U{2029}'
    || c == '\U{202F}'
    || c == '\U{205F}'
    || c == '\U{3000}'
  }

  /**
   * JavaScript's WhiteSpace and LineTerminator include the byte order mark
   * U+FEFF; Rust's `char::is_whitespace` (the White_Space property) does not,
   * but includes NEXT LINE U+0085, which JavaScript does not.
   */
  predicate IsSpace(f: Flavor, c: char) {
    IsCommonSpace(c) || (f == Js && c == '\U{FEFF}') || (f == Rust && c == '\U{85}')
  }

  /** The two flavours agree on `c`. */
  predicate SameSpace(c: char) {
    c != '\U{FEFF}' && c != '\U{85}'
  }

  predicate AllSpace(f: Flavor, s: string) {
    forall i :: 0 <= i < |s| ==> IsSpace(f, s[i])
  }

  /** How many whitespace characters `s` starts with. */
  function LeadingSpace(f: Flavor, s: string): (n: nat)
    ensures n <= |s|
    ensures n < |s| ==> !IsSpace(f, s[n])
  {
    if s != [] && IsSpace(f, s[0]) then 1 + LeadingSpace(f, s[1..]) else 0
  }

  /** The length of `s` once its trailing whitespace is dropped. */
  function TrailingStart(f: Flavor, s: string): (n: nat)
    ensures n <= |s|
    ensures n > 0 ==> !IsSpace(f, s[n - 1])
  {
    if s != [] && IsSpace(f, s[|s| - 1]) then TrailingStart(f, s[..|s| - 1]) else |s|
  }

  /** `s` without its leading whitespace. */
  function TrimStart(f: Flavor, s: string): string {
    s[LeadingSpace(f, s)..]
  }

  /** `s` without its trailing whitespace. */
  function TrimEnd(f: Flavor, s: string): string {
    s[..TrailingStart(f, s)]
  }

  /** `s` without leading and trailing whitespace (`trim()`). */
  function Trim(f: Flavor, s: string): string {
    TrimStart(f, TrimEnd(f, s))
  }

  /** Everything before `LeadingSpace` is whitespace. */
  lemma {:induction false} LeadingSpaceIsSpace(f: Flavor, s: string)
    ensures forall i :: 0 <= i < LeadingSpace(f, s) ==> IsSpace(f, s[i])
    decreases |s|
  {
    if s != [] && IsSpace(f, s[0]) {
      var rest := s[1..];
      LeadingSpaceIsSpace(f, rest);
      forall i | 1 <= i < LeadingSpace(f, s) ensures IsSpace(f, s[i]) {
        assert s[i] == rest[i - 1];
      }
    }
  }

  /** Everything from `TrailingStart` on is whitespace. */
  lemma {:induction false} TrailingSpaceIsSpace(f: Flavor, s: string)
    ensures forall i :: TrailingStart(f, s) <= i < |s| ==> IsSpace(f, s[i])
    decreases |s|
  {
    if s != [] && IsSpace(f, s[|s| - 1]) {
      var rest := s[..|s| - 1];
      TrailingSpaceIsSpace(f, rest);
      forall i | TrailingStart(f, s) <= i < |s| - 1 ensures IsSpace(f, s[i]) {
        assert s[i] == rest[i];
      }
    }
  }

  /** The trimmed string is the slice of `s` between its leading and its trailing whitespace. */
  lemma {:induction false} TrimSpan(f: Flavor, s: string)
    ensures var e := TrailingStart(f, s); var k := LeadingSpace(f, s[..e]);
      k <= e <= |s| && Trim(f, s) == s[k..e]
  {
    var e := TrailingStart(f, s);
    var k := LeadingSpace(f, s[..e]);
    assert s[..e][k..] == s[k..e];
  }

  /** Whitespace surrounds the trimmed slice, and its first and last characters are not whitespace. */
  lemma {:induction false} TrimBounds(f: Flavor, s: string)
    ensures var e := TrailingStart(f, s); var k := LeadingSpace(f, s[..e]);
      && (forall i :: 0 <= i < k ==> IsSpace(f, s[i]))
      && (forall i :: e <= i < |s| ==> IsSpace(f, s[i]))
      && (k < e ==> !IsSpace(f, s[k]) && !IsSpace(f, s[e - 1]))
  {
    var e := TrailingStart(f, s);
    var front := s[..e];
    LeadingSpaceIsSpace(f, front);
    TrailingSpaceIsSpace(f, s);
    assert forall i :: 0 <= i < e ==> front[i] == s[i];
  }

  lemma {:induction false} AllSpaceOutside(f: Flavor, s: string, k: nat, e: nat)
    requires k <= e <= |s|
    requires forall i :: 0 <= i < k ==> IsSpace(f, s[i])
    requires forall i :: e <= i < |s| ==> IsSpace(f, s[i])
    ensures AllSpace(f, s[..k]) && AllSpace(f, s[e..])
  {
    var head := s[..k];
    assert forall i :: 0 <= i < k ==> head[i] == s[i];
    var tail := s[e..];
    assert forall i :: 0 <= i < |tail| ==> tail[i] == s[e + i];
  }

  /** A trimmed string is a slice of the input with whitespace outside it and none at its ends. */
  lemma {:induction false} TrimSlice(f: Flavor, s: string)
    ensures var r := Trim(f, s);
      exists k :: 0 <= k <= |s| - |r| && r == s[k..k + |r|]
        && AllSpace(f, s[..k]) && AllSpace(f, s[k + |r|..])
        && (r != [] ==> !IsSpace(f, r[0]) && !IsSpace(f, r[|r| - 1]))
  {
    var e := TrailingStart(f, s);
    var k := LeadingSpace(f, s[..e]);
    TrimSpan(f, s);
    TrimBounds(f, s);
    AllSpaceOutside(f, s, k, e);
    var r := s[k..e];
    assert k + |r| == e;
    if r != [] {
      assert r[0] == s[k] && r[|r| - 1] == s[e - 1];
    }
  }

  /** A string trims to empty exactly when it is all whitespace. */
  lemma {:induction false} TrimEmptyIff(f: Flavor, s: string)
    ensures Trim(f, s) == [] <==> AllSpace(f, s)
  {
    var e := TrailingStart(f, s);
    var front := s[..e];
    var k := LeadingSpace(f, front);
    TrimSpan(f, s);
    if k == e {
      LeadingSpaceIsSpace(f, front);
      TrailingSpaceIsSpace(f, s);
      forall i | 0 <= i < |s| ensures IsSpace(f, s[i]) {
        if i < k {
          assert s[i] == front[i];
        }
      }
    } else {
      assert s[k] == front[k];
    }
  }

  /** A non-empty trimmed string ends with a non-whitespace character. */
  lemma {:induction false} TrimEndsNonSpace(f: Flavor, s: string)
    requires Trim(f, s) != []
    ensures !IsSpace(f, Trim(f, s)[|Trim(f, s)| - 1])
  {
    var e := TrailingStart(f, s);
    var k := LeadingSpace(f, s[..e]);
    TrimSpan(f, s);
    assert s[k..e][e - k - 1] == s[e - 1];
  }

  /** A string with no whitespace at either end is its own trim. */
  lemma {:induction false} TrimNoEndSpace(f: Flavor, s: string)
    requires s != [] && !IsSpace(f, s[0]) && !IsSpace(f, s[|s| - 1])
    ensures Trim(f, s) == s
  {
    assert TrailingStart(f, s) == |s| && s[..|s|] == s;
    assert LeadingSpace(f, s) == 0;
  }

  /** Trimming keeps characters of the input only. */
  lemma {:induction false} TrimSameSpace(f: Flavor, s: string)
    requires forall i :: 0 <= i < |s| ==> SameSpace(s[i])
    ensures forall i :: 0 <= i < |Trim(f, s)| ==> SameSpace(Trim(f, s)[i])
  {
    var e := TrailingStart(f, s);
    var k := LeadingSpace(f, s[..e]);
    TrimSpan(f, s);
    var r := s[k..e];
    forall i | 0 <= i < |r| ensures SameSpace(r[i]) {
      assert r[i] == s[k + i];
    }
  }

  /** Appending whitespace does not change the trimmed string. */
  lemma {:induction false} TrimAppendSpace(f: Flavor, s: string, c: char)
    requires IsSpace(f, c)
    ensures Trim(f, s + [c]) == Trim(f, s)
  {
    var t := s + [c];
    assert t[..|t| - 1] == s;
    var n := TrailingStart(f, t);
    assert n == TrailingStart(f, s);
    assert t[..n] == s[..n];
  }

  /** On strings without U+FEFF and U+0085 both flavours trim alike. */
  lemma {:induction false} TrimFlavorsAgree(s: string)
    requires forall i :: 0 <= i < |s| ==> SameSpace(s[i])
    ensures Trim(Js, s) == Trim(Rust, s)
  {
    TrailingStartFlavorsAgree(s);
    var front := s[..TrailingStart(Js, s)];
    assert forall i :: 0 <= i < |front| ==> front[i] == s[i];
    LeadingSpaceFlavorsAgree(front);
  }

  lemma {:induction false} TrailingStartFlavorsAgree(s: string)
    requires forall i :: 0 <= i < |s| ==> SameSpace(s[i])
    ensures TrailingStart(Js, s) == TrailingStart(Rust, s)
  {
    if s != [] && IsSpace(Js, s[|s| - 1]) {
      var rest := s[..|s| - 1];
      assert forall i :: 0 <= i < |rest| ==> rest[i] == s[i];
      TrailingStartFlavorsAgree(rest);
    }
  }

  lemma {:induction false} LeadingSpaceFlavorsAgree(s: string)
    requires forall i :: 0 <= i < |s| ==> SameSpace(s[i])
    ensures LeadingSpace(Js, s) == LeadingSpace(Rust, s)
  {
    if s != [] && IsSpace(Js, s[0]) {
      var rest := s[1..];
      assert forall i :: 0 <= i < |rest| ==> rest[i] == s[i + 1];
      LeadingSpaceFlavorsAgree(rest);
    }
  }

  predicate StartsWith(s: string, prefix: string) {
    |prefix| <= |s| && s[..|prefix|] == prefix
  }

  /** `pat` occurs in `s` starting at index `j`. */
  predicate MatchesAt(s: string, pat: string, j: int) {
    0 <= j && j + |pat| <= |s| && s[j..j + |pat|] == pat
  }

  predicate Contains(s: string, pat: string) {
    exists j :: 0 <= j <= |s| && MatchesAt(s, pat, j)
  }

  /** The index of the first occurrence of `pat` in `s`, as Rust's `str::find`. */
  function Find(s: string, pat: string): (r: Option<nat>)
    ensures r.Some? ==> MatchesAt(s, pat, r.value)
    ensures r.Some? ==> forall j :: 0 <= j < r.value ==> !MatchesAt(s, pat, j)
    ensures r.None? ==> forall j :: !MatchesAt(s, pat, j)
    decreases |s|
  {
    if |s| < |pat| then None
    else if s[..|pat|] == pat then Some(0)
    else match Find(s[1..], pat)
      case None =>
        assert forall j :: 1 <= j ==> MatchesAt(s, pat, j) == MatchesAt(s[1..], pat, j - 1);
        None
      case Some(k) =>
        assert forall j :: 1 <= j ==> MatchesAt(s, pat, j) == MatchesAt(s[1..], pat, j - 1);
        Some(k + 1)
  }

  /** Index of the first `c` in `s`, or `|s|` when there is none. */
  function IndexOf(s: string, c: char): (i: nat)
    ensures i <= |s|
    ensures i < |s| ==> s[i] == c
    ensures forall j :: 0 <= j < i ==> s[j] != c
  {
    if s == [] then 0 else if s[0] == c then 0 else 1 + IndexOf(s[1..], c)
  }

  /** JavaScript `s.split(sep)` for a one-character separator. */
  function Split(s: string, sep: char): (r: seq<string>)
    ensures |r| >= 1
    decreases |s|
  {
    var i := IndexOf(s, sep);
    if i == |s| then [s] else [s[..i]] + Split(s[i + 1..], sep)
  }

  /**
   * Rust `str::lines`: pieces split at `\n`, a `\r` directly before the `\n`
   * removed, and no final empty piece after a trailing `\n`.
   */
  function Lines(s: string): (r: seq<string>)
    decreases |s|
  {
    var i := IndexOf(s, '\n');
    if s == [] then []
    else if i == |s| then [s]
    else [StripCarriageReturn(s[..i])] + Lines(s[i + 1..])
  }

  function StripCarriageReturn(line: string): string {
    if line != [] && line[|line| - 1] == '\r' then line[..|line| - 1] else line
  }

  /** The first separator cuts off the first piece of `split`. */
  lemma {:induction false} SplitAtFirst(s: string, sep: char, i: nat)
    requires i == IndexOf(s, sep) < |s|
    ensures Split(s, sep) == [s[..i]] + Split(s[i + 1..], sep)
  {
  }

  /** The first newline cuts off the first line of `lines`, without its `\r`. */
  lemma {:induction false} LinesAtFirst(s: string, i: nat)
    requires i == IndexOf(s, '\n') < |s|
    ensures Lines(s) == [StripCarriageReturn(s[..i])] + Lines(s[i + 1..])
  {
  }

  /**
   * `lines` are the `pieces` of a split at `\n` as `str::lines` gives them: each
   * piece followed by a newline loses one final `\r`, the last piece is kept
   * as it is, and it is dropped when it is empty.
   */
  predicate LinesOfPieces(lines: seq<string>, pieces: seq<string>)
    requires |pieces| >= 1
  {
    var n := if pieces[|pieces| - 1] == [] then |pieces| - 1 else |pieces|;
    && |lines| == n
    && (forall k :: 0 <= k < n && k < |pieces| - 1 ==> lines[k] == StripCarriageReturn(pieces[k]))
    && (n == |pieces| ==> lines[n - 1] == pieces[|pieces| - 1])
  }

  /** `lines()` against `split("\n")`: the relation above, for every text. */
  lemma {:induction false} LinesFromSplit(s: string)
    ensures LinesOfPieces(Lines(s), Split(s, '\n'))
    decreases |s|
  {
    var i := IndexOf(s, '\n');
    if s != [] && i < |s| {
      var t := s[i + 1..];
      SplitAtFirst(s, '\n', i);
      LinesAtFirst(s, i);
      LinesFromSplit(t);
      LinesOfPiecesCons(s[..i], Lines(t), Split(t, '\n'));
    }
  }

  /** One more piece in front, followed by a newline, gives one more line in front. */
  lemma {:induction false} LinesOfPiecesCons(head: string, lines: seq<string>, pieces: seq<string>)
    requires |pieces| >= 1 && LinesOfPieces(lines, pieces)
    ensures LinesOfPieces([StripCarriageReturn(head)] + lines, [head] + pieces)
  {
    var p := [head] + pieces;
    var l := [StripCarriageReturn(head)] + lines;
    assert p[|p| - 1] == pieces[|pieces| - 1];
    forall k | 1 <= k < |p| - 1 && k < |l| ensures l[k] == StripCarriageReturn(p[k]) {
      assert l[k] == lines[k - 1] && p[k] == pieces[k - 1];
    }
  }

  /** `"a\r\nb\r".lines()` is `["a", "b\r"]`: only a `\r` before a newline goes. */
  lemma {:induction false} ExampleLines()
    ensures Lines("a\r\nb\r") == ["a", "b\r"]
  {
    var s := "a\r\nb\r";
    var rest := "b\r";
    assert s[0] == 'a' && s[1] == '\r' && s[2] == '\n';
    assert IndexOf(s, '\n') == 2;
    LinesAtFirst(s, 2);
    assert s[..2] == "a\r" && s[3..] == rest;
    assert StripCarriageReturn("a\r") == "a" by {
      assert "a\r"[..1] == "a";
    }
    assert rest[0] == 'b' && rest[1] == '\r';
    assert IndexOf(rest, '\n') == 2;
    assert Lines(rest) == [rest];
  }

  /** Splitting two separator-free pieces glued by the separator gives those pieces back. */
  lemma {:induction false} SplitTwo(a: string, b: string, sep: char)
    requires sep !in a && sep !in b
    ensures Split(a + [sep] + b, sep) == [a, b]
  {
    var s := a + [sep] + b;
    assert IndexOf(s, sep) == |a| by {
      assert s[|a|] == sep;
      assert forall j :: 0 <= j < |a| ==> s[j] == a[j];
    }
    assert s[..|a|] == a && s[|a| + 1..] == b;
  }

  /** The separators `Split` removed are exactly the `sep` characters of `s`. */
  lemma {:induction false} SplitJoin(s: string, sep: char)
    ensures Join(Split(s, sep), sep) == s
    ensures forall k :: 0 <= k < |Split(s, sep)| ==> sep !in Split(s, sep)[k]
    decreases |s|
  {
    var i := IndexOf(s, sep);
    if i < |s| {
      SplitJoin(s[i + 1..], sep);
      assert s == s[..i] + [sep] + s[i + 1..];
      var rest := Split(s[i + 1..], sep);
      assert Join([s[..i]] + rest, sep) == s[..i] + [sep] + Join(rest, sep) by {
        assert ([s[..i]] + rest)[1..] == rest;
      }
      assert sep !in s[..i];
    }
  }

  /** Pieces glued back with `sep` between them (JavaScript `join`). */
  function Join(pieces: seq<string>, sep: char): string {
    if pieces == [] then []
    else if |pieces| == 1 then pieces[0]
    else pieces[0] + [sep] + Join(pieces[1..], sep)
  }
}
