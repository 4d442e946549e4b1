/**
 * Inline Markdown: from one line to the constructs a renderer needs, as marker and content columns.
 * `word` stands for the Unicode alphanumeric test.
 */
module Markdown {
  import opened Basics

  datatype Kind = Bold | Italic | Code | Strike | Link | Image

  datatype Cols = Cols(from: nat, to: nat)

  datatype Span = Span(kind: Kind, markers: seq<Cols>, content: Cols)

  // ---------- Escapes ----------

  /** Column `p` holds a backslash that makes the next character literal. */
  predicate IsMarker(chars: string, p: nat) {
    p + 1 < |chars| && chars[p] == '\\' && !(p > 0 && IsMarker(chars, p - 1))
  }

  /** Column `p` is an escaping backslash or the character it escapes. */
  predicate Escaped(chars: string, p: nat) {
    IsMarker(chars, p) || (p > 0 && IsMarker(chars, p - 1))
  }

  /** The escaping backslashes, left to right. */
  method BackslashPositions(chars: string) returns (out: seq<nat>)
    ensures forall i, j :: 0 <= i < j < |out| ==> out[i] < out[j]
    ensures forall p: nat :: p in out <==> IsMarker(chars, p)
  {
    out := [];
    var i := 0;
    while i < |chars|
      invariant i <= |chars|
      invariant i > 0 ==> !IsMarker(chars, i - 1)
      invariant forall k, l :: 0 <= k < l < |out| ==> out[k] < out[l]
      invariant forall k :: 0 <= k < |out| ==> out[k] < i
      invariant forall p: nat :: p in out <==> p < i && IsMarker(chars, p)
    {
      if chars[i] == '\\' && i + 1 < |chars| {
        assert IsMarker(chars, i) && !IsMarker(chars, i + 1);
        out := out + [i];
        i := i + 2;
      } else {
        i := i + 1;
      }
    }
  }

  /** A delimiter character is escaped only by the backslash right before it. */
  lemma EscapedBy(chars: string, p: nat)
    requires p < |chars| && Escaped(chars, p) && chars[p] != '\\'
    ensures p > 0 && chars[p-1] == '\\' && Escaped(chars, p - 1)
  {
  }

  // ---------- Delimiters ----------

  predicate DelimAt(chars: string, j: nat, delim: string) {
    j + |delim| <= |chars| && !Escaped(chars, j) && chars[j..j + |delim|] == delim
  }

  /** The first unescaped occurrence of `delim` at or after `from`. */
  function First(chars: string, from: nat, delim: string): (r: Option<nat>)
    ensures r.Some? ==> from <= r.value && delim != "" && DelimAt(chars, r.value, delim)
    ensures forall k :: from <= k && (r.Some? ==> k < r.value) && delim != "" ==> !DelimAt(chars, k, delim)
    decreases |chars| - from
  {
    if delim == "" || from + |delim| > |chars| then None
    else if DelimAt(chars, from, delim) then Some(from)
    else First(chars, from + 1, delim)
  }

  method FindDelim(chars: string, from: nat, delim: string) returns (r: Option<nat>)
    ensures r == First(chars, from, delim)
  {
    if delim == "" || from + |delim| > |chars| { return None; }
    var j := from;
    while j + |delim| <= |chars|
      invariant from <= j
      invariant First(chars, from, delim) == First(chars, j, delim)
    {
      if !Escaped(chars, j) && chars[j..j + |delim|] == delim { return Some(j); }
      j := j + 1;
    }
    r := None;
  }

  // ---------- Constructs at one column ----------

  function TryDelim(chars: string, start: nat, delim: string, kind: Kind): Option<Span> {
    var open := start + |delim|;
    match First(chars, open, delim)
    case None => None
    case Some(close) =>
      if close == open then None
      else Some(Span(kind, [Cols(start, open), Cols(close, close + |delim|)], Cols(open, close)))
  }

  /** The first closing underscore from `from` on that no word character follows. */
  function Underscore(chars: string, from: nat, word: char -> bool): (r: Option<nat>)
    ensures r.Some? ==> from <= r.value && DelimAt(chars, r.value, "_")
    decreases |chars| - from
  {
    match First(chars, from, "_")
    case None => None
    case Some(close) =>
      if close + 1 < |chars| && IsWord(chars[close + 1], word) then Underscore(chars, close + 1, word) else Some(close)
  }

  predicate IsWord(c: char, word: char -> bool) { word(c) || c == '_' }

  /** `_..._` only between non-word boundaries. */
  function TryUnderscore(chars: string, start: nat, word: char -> bool): Option<Span> {
    if First(chars, start + 1, "_") == Some(start + 1) then None
    else
      match Underscore(chars, start + 1, word)
      case None => None
      case Some(close) => Some(Span(Italic, [Cols(start, start + 1), Cols(close, close + 1)], Cols(start + 1, close)))
  }

  method TryUnderscoreItalic(chars: string, start: nat, word: char -> bool) returns (r: Option<Span>)
    ensures r == TryUnderscore(chars, start, word)
  {
    var from := start + 1;
    while true
      invariant start + 1 <= from
      invariant from > start + 1 ==> First(chars, start + 1, "_") != Some(start + 1)
      invariant Underscore(chars, start + 1, word) == Underscore(chars, from, word)
      decreases |chars| - from
    {
      var close := FindDelim(chars, from, "_");
      if close.None? { return None; }
      if close.value == start + 1 { return None; }
      if close.value + 1 < |chars| && IsWord(chars[close.value + 1], word) {
        from := close.value + 1;
        continue;
      }
      return Some(Span(Italic, [Cols(start, start + 1), Cols(close.value, close.value + 1)], Cols(start + 1, close.value)));
    }
  }

  function TryTriple(chars: string, start: nat): Option<(Span, Span, nat)> {
    match First(chars, start + 3, "***")
    case None => None
    case Some(close) =>
      if close == start + 3 then None
      else Some((Span(Bold, [Cols(start, start + 2), Cols(close + 1, close + 3)], Cols(start + 2, close + 1)),
                 Span(Italic, [Cols(start + 2, start + 3), Cols(close, close + 1)], Cols(start + 3, close)),
                 close + 3))
  }

  function TryLinkOrImage(chars: string, start: nat, isImage: bool): Option<Span> {
    var bracket := if isImage then start + 1 else start;
    if bracket >= |chars| || chars[bracket] != '[' then None
    else
      match First(chars, bracket + 1, "]")
      case None => None
      case Some(close) =>
        if close + 1 >= |chars| || chars[close + 1] != '(' then None
        else
          match First(chars, close + 2, ")")
          case None => None
          case Some(paren) =>
            Some(Span(if isImage then Image else Link,
                      [Cols(start, bracket + 1), Cols(close, close + 2), Cols(close + 2, paren), Cols(paren, paren + 1)],
                      Cols(bracket + 1, close)))
  }

  function Starts(chars: string, i: nat, s: string): bool {
    i + |s| <= |chars| && chars[i..i + |s|] == s
  }

  type Found = Option<(seq<Span>, nat)>

  function OrElse(a: Found, b: Found): Found { if a.Some? then a else b }

  function Single(s: Option<Span>): Found { if s.Some? then Some(One(s.value)) else None }

  function Brackets(chars: string, i: nat): Found {
    OrElse(
      if Starts(chars, i, "![") then Single(TryLinkOrImage(chars, i, true)) else None,
      if Starts(chars, i, "[") then Single(TryLinkOrImage(chars, i, false)) else None)
  }

  function Ticks(chars: string, i: nat): Found {
    OrElse(
      if Starts(chars, i, "`") then Single(TryDelim(chars, i, "`", Code)) else None,
      if Starts(chars, i, "~~") then Single(TryDelim(chars, i, "~~", Strike)) else None)
  }

  function Triple(chars: string, i: nat): Found {
    if !Starts(chars, i, "***") then None
    else match TryTriple(chars, i)
      case Some((bold, italic, end)) => Some(([bold, italic], end))
      case None => None
  }

  function Stars(chars: string, i: nat): Found {
    OrElse(
      if Starts(chars, i, "**") then Single(TryDelim(chars, i, "**", Bold)) else None,
      if Starts(chars, i, "*") then Single(TryDelim(chars, i, "*", Italic)) else None)
  }

  function Underscores(chars: string, i: nat, word: char -> bool): Found {
    if Starts(chars, i, "_") && !(0 < i <= |chars| && IsWord(chars[i-1], word)) then Single(TryUnderscore(chars, i, word))
    else None
  }

  /** The constructs that open at unescaped column `i`, in the scanner's order of preference, and where they end. */
  function Construct(chars: string, i: nat, word: char -> bool): Found {
    OrElse(Brackets(chars, i), OrElse(Ticks(chars, i), OrElse(Triple(chars, i),
      OrElse(Stars(chars, i), Underscores(chars, i, word)))))
  }

  function One(s: Span): (seq<Span>, nat) {
    ([s], End(s))
  }

  function End(s: Span): nat {
    if s.markers == [] then 0 else s.markers[|s.markers|-1].to
  }

  // ---------- What a construct is ----------

  function From(s: Span): nat {
    if s.markers == [] then 0 else s.markers[0].from
  }

  /** Markers and content follow one another without gap or overlap, from `a` to `b`. */
  ghost predicate Tiles(s: Span, a: nat, b: nat) {
    && |s.markers| >= 2
    && s.markers[0] == Cols(a, s.content.from) && a < s.content.from <= s.content.to
    && s.markers[1].from == s.content.to
    && (forall k :: 1 <= k < |s.markers| - 1 ==> s.markers[k].to == s.markers[k+1].from)
    && (forall k :: 1 <= k < |s.markers| ==> s.markers[k].from <= s.markers[k].to)
    && s.markers[|s.markers|-1].to == b && s.markers[|s.markers|-1].from < b
  }

  predicate Reads(chars: string, c: Cols, text: string) {
    c.from <= c.to <= |chars| && chars[c.from..c.to] == text
  }

  /** The markers spell the construct's delimiters; an emphasis, code or strike construct is not empty. */
  ghost predicate Spelled(chars: string, s: Span) {
    match s.kind
    case Link => |s.markers| == 4 && Reads(chars, s.markers[0], "[") && Reads(chars, s.markers[1], "](") && Reads(chars, s.markers[3], ")")
    case Image => |s.markers| == 4 && Reads(chars, s.markers[0], "![") && Reads(chars, s.markers[1], "](") && Reads(chars, s.markers[3], ")")
    case _ =>
      && |s.markers| == 2 && s.content.from < s.content.to
      && Reads(chars, s.markers[0], Delim(chars, s)) && Reads(chars, s.markers[1], Delim(chars, s))
  }

  function Delim(chars: string, s: Span): string {
    match s.kind
    case Bold => "**"
    case Code => "`"
    case Strike => "~~"
    case _ => if Reads(chars, Cols(From(s), From(s) + 1), "_") then "_" else "*"
  }

  /** No character of an opening or closing delimiter is escaped; a link's target may hold escapes. */
  ghost predicate Unescaped(chars: string, s: Span) {
    forall k, p: nat :: 0 <= k < |s.markers| && k != 2 && s.markers[k].from <= p < s.markers[k].to ==> !Escaped(chars, p)
  }

  ghost predicate Sound(chars: string, s: Span) {
    Spelled(chars, s) && Unescaped(chars, s) && Tiles(s, From(s), End(s)) && End(s) <= |chars|
  }

  /** An unescaped delimiter has no escaped character after its first one either. */
  lemma DelimClean(chars: string, j: nat, delim: string, p: nat)
    requires DelimAt(chars, j, delim) && j <= p < j + |delim| && '\\' !in delim
    ensures !Escaped(chars, p)
  {
    assert forall q :: j <= q < j + |delim| ==> chars[q] == delim[q - j];
    if p > j && Escaped(chars, p) {
      assert chars[p] == delim[p - j] && chars[p-1] == delim[p - 1 - j];
      EscapedBy(chars, p);
    }
  }

  lemma TryDelimSound(chars: string, start: nat, delim: string, kind: Kind)
    requires delim != "" && '\\' !in delim && DelimAt(chars, start, delim)
    requires TryDelim(chars, start, delim, kind).Some?
    requires kind != Link && kind != Image
    requires delim == (match kind case Bold => "**" case Code => "`" case Strike => "~~" case _ => "*")
    ensures var s := TryDelim(chars, start, delim, kind).value;
      Sound(chars, s) && From(s) == start < End(s) && s.kind == kind
  {
    var s := TryDelim(chars, start, delim, kind).value;
    var close := s.content.to;
    forall k, p: nat | 0 <= k < |s.markers| && k != 2 && s.markers[k].from <= p < s.markers[k].to
      ensures !Escaped(chars, p)
    {
      DelimClean(chars, if k == 0 then start else close, delim, p);
    }
  }

  lemma TryUnderscoreSound(chars: string, start: nat, word: char -> bool)
    requires DelimAt(chars, start, "_") && TryUnderscore(chars, start, word).Some?
    ensures var s := TryUnderscore(chars, start, word).value;
      Sound(chars, s) && From(s) == start < End(s)
  {
    var s := TryUnderscore(chars, start, word).value;
    assert s.content.to != start + 1;
    forall k, p: nat | 0 <= k < |s.markers| && k != 2 && s.markers[k].from <= p < s.markers[k].to
      ensures !Escaped(chars, p)
    {
      DelimClean(chars, if k == 0 then start else s.content.to, "_", p);
    }
  }

  lemma TripleAt(chars: string, j: nat)
    requires DelimAt(chars, j, "***")
    ensures chars[j] == '*' && chars[j+1] == '*' && chars[j+2] == '*'
    ensures !Escaped(chars, j) && !Escaped(chars, j + 1) && !Escaped(chars, j + 2)
  {
    assert chars[j..j+3][0] == '*' && chars[j..j+3][1] == '*' && chars[j..j+3][2] == '*';
    DelimClean(chars, j, "***", j + 1);
    DelimClean(chars, j, "***", j + 2);
  }

  lemma TripleBold(chars: string, start: nat, close: nat)
    requires DelimAt(chars, start, "***") && DelimAt(chars, close, "***") && start + 3 < close
    ensures Sound(chars, Span(Bold, [Cols(start, start + 2), Cols(close + 1, close + 3)], Cols(start + 2, close + 1)))
  {
    TripleAt(chars, start);
    TripleAt(chars, close);
    assert chars[start..start+2] == "**" && chars[close+1..close+3] == "**";
  }

  lemma TripleItalic(chars: string, start: nat, close: nat)
    requires DelimAt(chars, start, "***") && DelimAt(chars, close, "***") && start + 3 < close
    ensures Sound(chars, Span(Italic, [Cols(start + 2, start + 3), Cols(close, close + 1)], Cols(start + 3, close)))
  {
    var s := Span(Italic, [Cols(start + 2, start + 3), Cols(close, close + 1)], Cols(start + 3, close));
    TripleAt(chars, start);
    TripleAt(chars, close);
    assert Delim(chars, s) == "*" && Reads(chars, s.markers[0], "*") && Reads(chars, s.markers[1], "*") by {
      assert chars[start+2..start+3] == "*" && chars[close..close+1] == "*";
    }
    assert Spelled(chars, s);
  }

  lemma TryTripleSound(chars: string, start: nat)
    requires DelimAt(chars, start, "***") && TryTriple(chars, start).Some?
    ensures var (bold, italic, end) := TryTriple(chars, start).value;
      && Sound(chars, bold) && Sound(chars, italic) && Nested(bold, italic)
      && From(bold) == start && End(bold) == end
  {
    var close := TryTriple(chars, start).value.1.content.to;
    TripleBold(chars, start, close);
    TripleItalic(chars, start, close);
  }

  lemma TryLinkSound(chars: string, start: nat, isImage: bool)
    requires DelimAt(chars, start, if isImage then "![" else "[") && TryLinkOrImage(chars, start, isImage).Some?
    ensures var s := TryLinkOrImage(chars, start, isImage).value;
      Sound(chars, s) && From(s) == start < End(s)
  {
    var s := TryLinkOrImage(chars, start, isImage).value;
    var close, paren := s.content.to, s.markers[3].from;
    assert chars[close..close+1] == "]" && chars[close..close+2] == "](";
    assert DelimAt(chars, close, "](");
    forall k, p: nat | 0 <= k < |s.markers| && k != 2 && s.markers[k].from <= p < s.markers[k].to
      ensures !Escaped(chars, p)
    {
      if k == 0 { DelimClean(chars, start, if isImage then "![" else "[", p); }
      else if k == 1 { DelimClean(chars, close, "](", p); }
      else { DelimClean(chars, paren, ")", p); }
    }
  }

  /** One construct, or the Bold and Italic a triple star resolves to, over columns `a` to `b`. */
  ghost predicate Group(chars: string, ss: seq<Span>, a: nat, b: nat) {
    && (forall k :: 0 <= k < |ss| ==> Sound(chars, ss[k]))
    && (|ss| == 1 || (|ss| == 2 && Nested(ss[0], ss[1])))
    && From(ss[0]) == a && End(ss[0]) == b
  }

  /** The Italic sits exactly in the Bold's content. */
  predicate Nested(outer: Span, inner: Span) {
    outer.kind == Bold && inner.kind == Italic && outer.content == Cols(From(inner), End(inner))
  }

  ghost predicate SoundAt(chars: string, i: nat, r: Found) {
    r.Some? ==> Group(chars, r.value.0, i, r.value.1) && i < r.value.1 <= |chars|
  }

  lemma BracketsSound(chars: string, i: nat)
    requires !Escaped(chars, i)
    ensures SoundAt(chars, i, Brackets(chars, i))
  {
    if Starts(chars, i, "![") && TryLinkOrImage(chars, i, true).Some? { TryLinkSound(chars, i, true); }
    else if Starts(chars, i, "[") && TryLinkOrImage(chars, i, false).Some? { TryLinkSound(chars, i, false); }
  }

  lemma TicksSound(chars: string, i: nat)
    requires !Escaped(chars, i)
    ensures SoundAt(chars, i, Ticks(chars, i))
  {
    if Starts(chars, i, "`") && TryDelim(chars, i, "`", Code).Some? { TryDelimSound(chars, i, "`", Code); }
    else if Starts(chars, i, "~~") && TryDelim(chars, i, "~~", Strike).Some? { TryDelimSound(chars, i, "~~", Strike); }
  }

  lemma StarsSound(chars: string, i: nat)
    requires !Escaped(chars, i)
    ensures SoundAt(chars, i, Stars(chars, i))
  {
    if Starts(chars, i, "**") && TryDelim(chars, i, "**", Bold).Some? { TryDelimSound(chars, i, "**", Bold); }
    else if Starts(chars, i, "*") && TryDelim(chars, i, "*", Italic).Some? { TryDelimSound(chars, i, "*", Italic); }
  }

  lemma TripleSound(chars: string, i: nat)
    requires !Escaped(chars, i)
    ensures SoundAt(chars, i, Triple(chars, i))
  {
    if Starts(chars, i, "***") && TryTriple(chars, i).Some? { TryTripleSound(chars, i); }
  }

  /** Whatever opens at an unescaped column is a well-formed construct starting right there. */
  lemma ConstructSound(chars: string, i: nat, word: char -> bool)
    requires !Escaped(chars, i)
    ensures SoundAt(chars, i, Construct(chars, i, word))
  {
    BracketsSound(chars, i);
    TicksSound(chars, i);
    TripleSound(chars, i);
    StarsSound(chars, i);
    if Underscores(chars, i, word).Some? { TryUnderscoreSound(chars, i, word); }
  }

  // ---------- The scan of a line ----------

  /** All constructs from column `i` on, left to right, each search resuming where the last construct ended. */
  function Scan(chars: string, i: nat, word: char -> bool): seq<Span>
    decreases |chars| - i
  {
    if i >= |chars| then []
    else if Escaped(chars, i) then Scan(chars, i + 1, word)
    else
      ConstructSound(chars, i, word);
      match Construct(chars, i, word)
      case None => Scan(chars, i + 1, word)
      case Some((ss, end)) => ss + Scan(chars, end, word)
  }

  /** One span ends before the other begins, or they are a triple star's pair. */
  predicate Apart(spans: seq<Span>, k: nat, l: nat)
    requires k < l < |spans|
  {
    End(spans[k]) <= From(spans[l]) || (l == k + 1 && Nested(spans[k], spans[l]))
  }

  predicate AllApart(spans: seq<Span>) {
    forall k, l :: 0 <= k < l < |spans| ==> Apart(spans, k, l)
  }

  predicate EndBy(spans: seq<Span>, p: nat) {
    forall k :: 0 <= k < |spans| ==> End(spans[k]) <= p
  }

  predicate StartFrom(spans: seq<Span>, p: nat) {
    forall k :: 0 <= k < |spans| ==> p <= From(spans[k])
  }

  ghost predicate AllSound(chars: string, spans: seq<Span>) {
    forall k :: 0 <= k < |spans| ==> Sound(chars, spans[k])
  }

  ghost predicate WellFormed(chars: string, spans: seq<Span>, i: nat) {
    AllSound(chars, spans) && StartFrom(spans, i) && AllApart(spans)
  }

  lemma ConcatApart(ss: seq<Span>, rest: seq<Span>, p: nat)
    requires AllApart(ss) && AllApart(rest) && EndBy(ss, p) && StartFrom(rest, p)
    ensures AllApart(ss + rest)
  {
    forall k, l | 0 <= k < l < |ss + rest| ensures Apart(ss + rest, k, l) {
      if l < |ss| { assert Apart(ss, k, l); }
      else if k >= |ss| { assert Apart(rest, k - |ss|, l - |ss|); }
    }
  }

  lemma GroupShape(ss: seq<Span>, i: nat, end: nat)
    requires |ss| == 1 || (|ss| == 2 && Nested(ss[0], ss[1]))
    requires From(ss[0]) == i <= ss[0].content.from && ss[0].content.to <= end == End(ss[0])
    ensures AllApart(ss) && EndBy(ss, end) && StartFrom(ss, i)
  {
  }

  lemma PrependGroup(chars: string, ss: seq<Span>, rest: seq<Span>, i: nat, end: nat)
    requires Group(chars, ss, i, end) && i < end && WellFormed(chars, rest, end)
    ensures WellFormed(chars, ss + rest, i)
  {
    assert Sound(chars, ss[0]);
    ContentInside(ss[0], i, end);
    GroupShape(ss, i, end);
    ConcatApart(ss, rest, end);
  }

  /** One turn of the scan, case by case. */
  lemma ScanCases(chars: string, i: nat, word: char -> bool)
    requires i < |chars|
    ensures Escaped(chars, i) || Construct(chars, i, word).None? ==> Scan(chars, i, word) == Scan(chars, i + 1, word)
    ensures !Escaped(chars, i) && Construct(chars, i, word).Some? ==>
              var (ss, end) := Construct(chars, i, word).value;
              i < end <= |chars| && Group(chars, ss, i, end) && Scan(chars, i, word) == ss + Scan(chars, end, word)
  {
    if !Escaped(chars, i) { ConstructSound(chars, i, word); }
  }

  lemma Earlier(chars: string, spans: seq<Span>, i: nat)
    requires WellFormed(chars, spans, i + 1)
    ensures WellFormed(chars, spans, i)
  {
  }

  /** Every construct of every line is well formed, and any two are apart or a triple star's pair. */
  lemma {:induction false} ScanWellFormed(chars: string, i: nat, word: char -> bool)
    ensures WellFormed(chars, Scan(chars, i, word), i)
    decreases |chars| - i
  {
    if i < |chars| {
      ScanCases(chars, i, word);
      var found := Construct(chars, i, word);
      if Escaped(chars, i) || found.None? {
        ScanWellFormed(chars, i + 1, word);
        Earlier(chars, Scan(chars, i + 1, word), i);
      } else {
        var (ss, end) := found.value;
        ScanWellFormed(chars, end, word);
        PrependGroup(chars, ss, Scan(chars, end, word), i, end);
      }
    }
  }

  ghost predicate InOrder(spans: seq<Span>) {
    forall k, l :: 0 <= k < l < |spans| ==> spans[k].content.from < spans[l].content.from
  }

  lemma WellFormedInOrder(chars: string, spans: seq<Span>, i: nat)
    requires WellFormed(chars, spans, i)
    ensures InOrder(spans)
  {
    forall k, l | 0 <= k < l < |spans| ensures spans[k].content.from < spans[l].content.from {
      assert Apart(spans, k, l) && Sound(chars, spans[k]) && Sound(chars, spans[l]);
      ContentInside(spans[k], From(spans[k]), End(spans[k]));
      ContentInside(spans[l], From(spans[l]), End(spans[l]));
    }
  }

  lemma {:induction false} ContentInside(s: Span, a: nat, b: nat)
    requires Tiles(s, a, b)
    ensures a < s.content.from <= s.content.to < b
  {
    var n := |s.markers|;
    var k := 1;
    while k < n - 1
      invariant 1 <= k <= n - 1 && s.content.to <= s.markers[k].from
    {
      k := k + 1;
    }
  }

  // ---------- Sorting by content start ----------

  function InsertByContent(xs: seq<Span>, x: Span): seq<Span> {
    if xs == [] || xs[|xs|-1].content.from <= x.content.from then xs + [x]
    else InsertByContent(xs[..|xs|-1], x) + [xs[|xs|-1]]
  }

  /** A stable sort. */
  function SortByContent(xs: seq<Span>): seq<Span> {
    if xs == [] then [] else InsertByContent(SortByContent(xs[..|xs|-1]), xs[|xs|-1])
  }

  lemma {:induction false} SortedUnchanged(xs: seq<Span>)
    requires InOrder(xs)
    ensures SortByContent(xs) == xs
    decreases |xs|
  {
    if xs != [] {
      var front, x := xs[..|xs|-1], xs[|xs|-1];
      SortedUnchanged(front);
      assert front != [] ==> front[|front|-1].content.from <= x.content.from;
      assert InsertByContent(front, x) == front + [x];
      assert front + [x] == xs;
    }
  }

  // ---------- The scanner ----------

  method EscapedPositions(chars: string) returns (escaped: set<nat>)
    ensures forall p: nat :: p in escaped <==> Escaped(chars, p)
  {
    var marks := BackslashPositions(chars);
    escaped := {};
    for i := 0 to |marks|
      invariant forall p: nat :: p in escaped <==> exists j :: 0 <= j < i && (marks[j] == p || marks[j] + 1 == p)
    {
      escaped := escaped + {marks[i], marks[i] + 1};
    }
    forall p: nat ensures p in escaped <==> Escaped(chars, p) {
      if IsMarker(chars, p) {
        var j :| 0 <= j < |marks| && marks[j] == p;
      } else if p > 0 && IsMarker(chars, p - 1) {
        var j :| 0 <= j < |marks| && marks[j] == p - 1;
      } else {
        assert p !in marks && (p > 0 ==> p - 1 !in marks);
      }
    }
  }

  /** How one turn of the scan moves the boundary between what is found and what is left. */
  lemma ScanStep(chars: string, i: nat, word: char -> bool, found: seq<Span>, all: seq<Span>)
    requires i < |chars| && all == found + Scan(chars, i, word)
    ensures Escaped(chars, i) || Construct(chars, i, word).None? ==> all == found + Scan(chars, i + 1, word)
    ensures !Escaped(chars, i) && Construct(chars, i, word).Some? ==>
              var (ss, end) := Construct(chars, i, word).value;
              i < end <= |chars| && all == (found + ss) + Scan(chars, end, word)
  {
    ScanCases(chars, i, word);
    if !Escaped(chars, i) && Construct(chars, i, word).Some? {
      var (ss, end) := Construct(chars, i, word).value;
      Appended(found, ss, Scan(chars, end, word));
    }
  }

  /**
   * The constructs of one line: exactly those the left-to-right scan finds, each well formed, in
   * strictly increasing order of content, any two disjoint but for a triple star's pair.
   */
  method InlineSpans(chars: string, word: char -> bool) returns (spans: seq<Span>)
    ensures spans == Scan(chars, 0, word)
    ensures WellFormed(chars, spans, 0) && InOrder(spans)
  {
    var escaped := EscapedPositions(chars);
    ghost var all := Scan(chars, 0, word);
    spans := [];
    var i := 0;
    while i < |chars|
      invariant i <= |chars|
      invariant all == spans + Scan(chars, i, word)
      decreases |chars| - i
    {
      ScanStep(chars, i, word, spans, all);
      if i in escaped {
        i := i + 1;
        continue;
      }
      match Construct(chars, i, word)
      case Some((ss, end)) =>
        spans := spans + ss;
        i := end;
      case None =>
        i := i + 1;
    }
    assert spans == all;
    ScanWellFormed(chars, 0, word);
    WellFormedInOrder(chars, spans, 0);
    SortedUnchanged(spans);
    spans := SortByContent(spans);
  }

  ghost predicate Inside(spans: seq<Span>, p: nat) {
    exists k :: 0 <= k < |spans| && From(spans[k]) <= p < End(spans[k])
  }

  lemma InsideAppend(ss: seq<Span>, rest: seq<Span>, p: nat)
    ensures Inside(ss, p) || Inside(rest, p) ==> Inside(ss + rest, p)
  {
    if Inside(ss, p) {
      var k :| 0 <= k < |ss| && From(ss[k]) <= p < End(ss[k]);
      assert (ss + rest)[k] == ss[k];
    } else if Inside(rest, p) {
      var k :| 0 <= k < |rest| && From(rest[k]) <= p < End(rest[k]);
      assert (ss + rest)[|ss| + k] == rest[k];
    }
  }

  /** Nothing is missed: at an unescaped column outside every construct, no construct opens. */
  lemma {:induction false} ScanComplete(chars: string, i: nat, p: nat, word: char -> bool)
    requires i <= p < |chars|
    ensures Inside(Scan(chars, i, word), p) || Escaped(chars, p) || Construct(chars, p, word).None?
    decreases |chars| - i
  {
    var found := Construct(chars, i, word);
    ScanCases(chars, i, word);
    if Escaped(chars, i) || found.None? {
      if i < p { ScanComplete(chars, i + 1, p, word); }
    } else {
      var (ss, end) := found.value;
      InsideAppend(ss, Scan(chars, end, word), p);
      if p < end {
        assert From(ss[0]) <= p < End(ss[0]);
      } else {
        ScanComplete(chars, end, p, word);
      }
    }
  }
}
