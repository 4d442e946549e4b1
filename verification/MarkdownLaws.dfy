/**
 * When an inline construct must be found, said on the characters of the line alone: which delimiters
 * open, where each closes, and which reading wins where several would do.
 */
module MarkdownLaws {
  import opened Basics
  import opened Markdown

  /** The unescaped text `d` stands at column `j`. */
  predicate TextAt(chars: string, j: nat, d: string) {
    j + |d| <= |chars| && chars[j..j + |d|] == d && !Escaped(chars, j)
  }

  /** `q` is the first column from `from` on where the unescaped text `d` stands. */
  predicate ClosesAt(chars: string, from: nat, d: string, q: nat) {
    from <= q && TextAt(chars, q, d) && forall j :: from <= j < q ==> !TextAt(chars, j, d)
  }

  lemma FirstIs(chars: string, from: nat, d: string, q: nat)
    requires d != ""
    ensures First(chars, from, d) == Some(q) <==> ClosesAt(chars, from, d, q)
  {
    var r := First(chars, from, d);
    assert r.Some? ==> DelimAt(chars, r.value, d);
    assert forall j :: from <= j ==> (DelimAt(chars, j, d) <==> TextAt(chars, j, d));
  }

  /** `d` opened at `p` encloses something and closes at `q`. */
  predicate Enclosed(chars: string, p: nat, d: string, q: nat) {
    p + |d| < q && ClosesAt(chars, p + |d|, d, q)
  }

  ghost predicate Encloses(chars: string, p: nat, d: string) {
    Starts(chars, p, d) && exists q: nat :: Enclosed(chars, p, d, q)
  }

  function Simple(kind: Kind, p: nat, n: nat, q: nat): Span {
    Span(kind, [Cols(p, p + n), Cols(q, q + n)], Cols(p + n, q))
  }

  lemma TryDelimAt(chars: string, p: nat, d: string, kind: Kind, q: nat)
    requires d != "" && Enclosed(chars, p, d, q)
    ensures TryDelim(chars, p, d, kind) == Some(Simple(kind, p, |d|, q))
  {
    FirstIs(chars, p + |d|, d, q);
  }

  lemma TryDelimIs(chars: string, p: nat, d: string, kind: Kind)
    requires d != "" && Starts(chars, p, d)
    ensures TryDelim(chars, p, d, kind).Some? <==> Encloses(chars, p, d)
  {
    if TryDelim(chars, p, d, kind).Some? {
      var q := First(chars, p + |d|, d).value;
      FirstIs(chars, p + |d|, d, q);
      assert Enclosed(chars, p, d, q);
    }
    if Encloses(chars, p, d) {
      var q: nat :| Enclosed(chars, p, d, q);
      TryDelimAt(chars, p, d, kind, q);
    }
  }

  // ---------- Which construct opens at a column ----------

  lemma StartsWith(chars: string, p: nat, s: string)
    requires p < |chars| && s != ""
    ensures Starts(chars, p, s) ==> s[0] == chars[p]
    ensures |s| == 1 && s[0] == chars[p] ==> Starts(chars, p, s)
  {
    if Starts(chars, p, s) { assert chars[p..p + |s|][0] == chars[p]; }
  }

  /** Only the character itself decides which family of constructs can open. */
  lemma Families(chars: string, p: nat, word: char -> bool)
    requires p < |chars|
    ensures chars[p] != '[' && chars[p] != '!' ==> Brackets(chars, p) == None
    ensures chars[p] != '`' && chars[p] != '~' ==> Ticks(chars, p) == None
    ensures chars[p] != '*' ==> Triple(chars, p) == None && Stars(chars, p) == None
    ensures chars[p] != '_' ==> Underscores(chars, p, word) == None
  {
    StartsWith(chars, p, "![");
    StartsWith(chars, p, "[");
    StartsWith(chars, p, "`");
    StartsWith(chars, p, "~~");
    StartsWith(chars, p, "***");
    StartsWith(chars, p, "**");
    StartsWith(chars, p, "*");
    StartsWith(chars, p, "_");
  }

  /** A backtick opens a code span exactly when another unescaped backtick follows, not at once; it closes at the first. */
  lemma CodeOpens(chars: string, p: nat, word: char -> bool, q: nat)
    requires p < |chars| && chars[p] == '`'
    ensures Construct(chars, p, word).Some? <==> Encloses(chars, p, "`")
    ensures Enclosed(chars, p, "`", q) ==> Construct(chars, p, word) == Some(([Simple(Code, p, 1, q)], q + 1))
  {
    Families(chars, p, word);
    StartsWith(chars, p, "`");
    StartsWith(chars, p, "~~");
    TryDelimIs(chars, p, "`", Code);
    if Enclosed(chars, p, "`", q) { TryDelimAt(chars, p, "`", Code, q); }
  }

  /** Two tildes open a strike-through exactly when two more close it; a lone tilde opens nothing. */
  lemma StrikeOpens(chars: string, p: nat, word: char -> bool, q: nat)
    requires p < |chars| && chars[p] == '~'
    ensures Construct(chars, p, word).Some? <==> Encloses(chars, p, "~~")
    ensures Starts(chars, p, "~~") && Enclosed(chars, p, "~~", q) ==>
              Construct(chars, p, word) == Some(([Simple(Strike, p, 2, q)], q + 2))
  {
    Families(chars, p, word);
    StartsWith(chars, p, "`");
    if Starts(chars, p, "~~") {
      TryDelimIs(chars, p, "~~", Strike);
      if Enclosed(chars, p, "~~", q) { TryDelimAt(chars, p, "~~", Strike, q); }
    }
  }

  function Both(p: nat, q: nat): seq<Span> {
    [Span(Bold, [Cols(p, p + 2), Cols(q + 1, q + 3)], Cols(p + 2, q + 1)),
     Span(Italic, [Cols(p + 2, p + 3), Cols(q, q + 1)], Cols(p + 3, q))]
  }

  lemma TripleAtIs(chars: string, p: nat, q: nat)
    requires Starts(chars, p, "***") && Enclosed(chars, p, "***", q)
    ensures Triple(chars, p) == Some((Both(p, q), q + 3))
  {
    FirstIs(chars, p + 3, "***", q);
  }

  lemma TripleIs(chars: string, p: nat)
    ensures Triple(chars, p).Some? <==> Encloses(chars, p, "***")
  {
    if Triple(chars, p).Some? {
      var q := First(chars, p + 3, "***").value;
      FirstIs(chars, p + 3, "***", q);
      assert Enclosed(chars, p, "***", q);
    }
    if Encloses(chars, p, "***") {
      var q: nat :| Enclosed(chars, p, "***", q);
      TripleAtIs(chars, p, q);
    }
  }

  /** Three stars that close win, then two, then one. */
  lemma StarsOpen(chars: string, p: nat, word: char -> bool, q: nat)
    requires p < |chars| && chars[p] == '*'
    ensures Construct(chars, p, word).Some? <==> Encloses(chars, p, "***") || Encloses(chars, p, "**") || Encloses(chars, p, "*")
    ensures Encloses(chars, p, "***") && Enclosed(chars, p, "***", q) ==> Construct(chars, p, word) == Some((Both(p, q), q + 3))
    ensures !Encloses(chars, p, "***") && Encloses(chars, p, "**") && Enclosed(chars, p, "**", q) ==>
              Construct(chars, p, word) == Some(([Simple(Bold, p, 2, q)], q + 2))
    ensures !Encloses(chars, p, "***") && !Encloses(chars, p, "**") && Enclosed(chars, p, "*", q) ==>
              Construct(chars, p, word) == Some(([Simple(Italic, p, 1, q)], q + 1))
  {
    Families(chars, p, word);
    TripleIs(chars, p);
    if Encloses(chars, p, "***") && Enclosed(chars, p, "***", q) { TripleAtIs(chars, p, q); }
    StarsAre(chars, p, q);
  }

  lemma StarsAre(chars: string, p: nat, q: nat)
    requires p < |chars| && chars[p] == '*'
    ensures Stars(chars, p).Some? <==> Encloses(chars, p, "**") || Encloses(chars, p, "*")
    ensures Encloses(chars, p, "**") && Enclosed(chars, p, "**", q) ==> Stars(chars, p) == Some(([Simple(Bold, p, 2, q)], q + 2))
    ensures !Encloses(chars, p, "**") && Enclosed(chars, p, "*", q) ==> Stars(chars, p) == Some(([Simple(Italic, p, 1, q)], q + 1))
  {
    StartsWith(chars, p, "*");
    TryDelimIs(chars, p, "*", Italic);
    if Enclosed(chars, p, "*", q) { TryDelimAt(chars, p, "*", Italic, q); }
    if Starts(chars, p, "**") {
      TryDelimIs(chars, p, "**", Bold);
      if Enclosed(chars, p, "**", q) { TryDelimAt(chars, p, "**", Bold, q); }
    }
  }

  /** An underscore at `q` that no word character follows. */
  predicate EndsWord(chars: string, q: nat, word: char -> bool) {
    TextAt(chars, q, "_") && !(q + 1 < |chars| && (word(chars[q + 1]) || chars[q + 1] == '_'))
  }

  predicate FirstEnd(chars: string, from: nat, q: nat, word: char -> bool) {
    from <= q && EndsWord(chars, q, word) && forall j :: from <= j < q ==> !EndsWord(chars, j, word)
  }

  lemma {:induction false} UnderscoreIs(chars: string, from: nat, word: char -> bool, q: nat)
    ensures Underscore(chars, from, word) == Some(q) <==> FirstEnd(chars, from, q, word)
    decreases |chars| - from
  {
    var r := First(chars, from, "_");
    if r.None? {
      if from <= q { NoneFrom(chars, from, q); }
    } else {
      FirstIs(chars, from, "_", r.value);
      EndFrom(chars, from, r.value, q, word);
      if !EndsWord(chars, r.value, word) { UnderscoreIs(chars, r.value + 1, word, q); }
    }
  }

  /** The first underscore ends the word, or the search goes on behind it. */
  lemma EndFrom(chars: string, from: nat, c: nat, q: nat, word: char -> bool)
    requires ClosesAt(chars, from, "_", c)
    ensures FirstEnd(chars, from, q, word) <==> if EndsWord(chars, c, word) then q == c else FirstEnd(chars, c + 1, q, word)
  {
  }

  lemma NoneFrom(chars: string, from: nat, q: nat)
    requires First(chars, from, "_") == None && from <= q
    ensures !TextAt(chars, q, "_")
  {
    FirstIs(chars, from, "_", q);
    assert DelimAt(chars, q, "_") <==> TextAt(chars, q, "_");
  }

  /** The underscore at `p` follows no word character and is not doubled. */
  predicate OpensWord(chars: string, p: nat, word: char -> bool) {
    && p < |chars| && chars[p] == '_' && !TextAt(chars, p + 1, "_")
    && !(p > 0 && (word(chars[p-1]) || chars[p-1] == '_'))
  }

  ghost predicate EndsSomewhere(chars: string, from: nat, word: char -> bool) { exists q: nat :: FirstEnd(chars, from, q, word) }

  /** Such an underscore opens an italic exactly when one before no word character closes it. */
  lemma UnderscoreOpens(chars: string, p: nat, word: char -> bool, q: nat)
    requires p < |chars| && chars[p] == '_'
    ensures Construct(chars, p, word).Some? <==> OpensWord(chars, p, word) && EndsSomewhere(chars, p + 1, word)
    ensures OpensWord(chars, p, word) && FirstEnd(chars, p + 1, q, word) ==>
              Construct(chars, p, word) == Some(([Simple(Italic, p, 1, q)], q + 1))
  {
    Families(chars, p, word);
    StartsWith(chars, p, "_");
    FirstIs(chars, p + 1, "_", p + 1);
    assert ClosesAt(chars, p + 1, "_", p + 1) <==> TextAt(chars, p + 1, "_");
    UnderscoreIs(chars, p + 1, word, q);
    if Underscore(chars, p + 1, word).Some? {
      UnderscoreIs(chars, p + 1, word, Underscore(chars, p + 1, word).value);
    } else if EndsSomewhere(chars, p + 1, word) {
      var c: nat :| FirstEnd(chars, p + 1, c, word);
      UnderscoreIs(chars, p + 1, word, c);
    }
  }

  /** The text of a link runs from `t` to the bracket at `c`; its target follows at once, up to the parenthesis at `q`. */
  predicate LinkAt(chars: string, t: nat, c: nat, q: nat) {
    && ClosesAt(chars, t, "]", c)
    && c + 1 < |chars| && chars[c + 1] == '('
    && ClosesAt(chars, c + 2, ")", q)
  }

  ghost predicate Linkable(chars: string, t: nat) { exists c: nat, q: nat :: LinkAt(chars, t, c, q) }

  function Linked(kind: Kind, p: nat, t: nat, c: nat, q: nat): Span {
    Span(kind, [Cols(p, t), Cols(c, c + 2), Cols(c + 2, q), Cols(q, q + 1)], Cols(t, c))
  }

  lemma TryLinkAt(chars: string, p: nat, isImage: bool, t: nat, c: nat, q: nat)
    requires 0 < t <= |chars| && chars[t-1] == '[' && t == (if isImage then p + 2 else p + 1) && LinkAt(chars, t, c, q)
    ensures TryLinkOrImage(chars, p, isImage) == Some(Linked(if isImage then Image else Link, p, t, c, q))
  {
    FirstIs(chars, t, "]", c);
    FirstIs(chars, c + 2, ")", q);
  }

  lemma TryLinkIs(chars: string, p: nat, isImage: bool, t: nat)
    requires 0 < t <= |chars| && chars[t-1] == '[' && t == if isImage then p + 2 else p + 1
    ensures TryLinkOrImage(chars, p, isImage).Some? <==> Linkable(chars, t)
  {
    if TryLinkOrImage(chars, p, isImage).Some? {
      var c := First(chars, t, "]").value;
      var q := First(chars, c + 2, ")").value;
      FirstIs(chars, t, "]", c);
      FirstIs(chars, c + 2, ")", q);
      assert LinkAt(chars, t, c, q);
    }
    if Linkable(chars, t) {
      var c: nat, q: nat :| LinkAt(chars, t, c, q);
      TryLinkAt(chars, p, isImage, t, c, q);
    }
  }

  /** A bracket opens a link exactly when its text and target are closed. */
  lemma LinkOpens(chars: string, p: nat, word: char -> bool, c: nat, q: nat)
    requires p < |chars| && chars[p] == '['
    ensures Construct(chars, p, word).Some? <==> Linkable(chars, p + 1)
    ensures LinkAt(chars, p + 1, c, q) ==> Construct(chars, p, word) == Some(([Linked(Link, p, p + 1, c, q)], q + 1))
  {
    Families(chars, p, word);
    StartsWith(chars, p, "[");
    StartsWith(chars, p, "![");
    TryLinkIs(chars, p, false, p + 1);
    if LinkAt(chars, p + 1, c, q) { TryLinkAt(chars, p, false, p + 1, c, q); }
  }

  /** An exclamation mark opens an image exactly when a bracket follows whose text and target are closed. */
  lemma ImageOpens(chars: string, p: nat, word: char -> bool, c: nat, q: nat)
    requires p < |chars| && chars[p] == '!'
    ensures Construct(chars, p, word).Some? <==> p + 1 < |chars| && chars[p + 1] == '[' && Linkable(chars, p + 2)
    ensures p + 1 < |chars| && chars[p + 1] == '[' && LinkAt(chars, p + 2, c, q) ==>
              Construct(chars, p, word) == Some(([Linked(Image, p, p + 2, c, q)], q + 1))
  {
    Families(chars, p, word);
    StartsWith(chars, p, "[");
    assert Starts(chars, p, "![") <==> p + 1 < |chars| && chars[p + 1] == '[' by {
      if p + 1 < |chars| { assert chars[p..p + 2] == [chars[p], chars[p + 1]]; }
    }
    if p + 1 < |chars| && chars[p + 1] == '[' {
      TryLinkIs(chars, p, true, p + 2);
      if LinkAt(chars, p + 2, c, q) { TryLinkAt(chars, p, true, p + 2, c, q); }
    }
  }

  /** No other character opens anything. */
  lemma NothingElseOpens(chars: string, p: nat, word: char -> bool)
    requires p < |chars| && chars[p] !in {'`', '~', '*', '_', '[', '!'}
    ensures Construct(chars, p, word) == None
  {
    Families(chars, p, word);
  }

  // ---------- On the whole line ----------

  /** Every unescaped backtick that another one closes lies inside a construct the scan found. */
  lemma CodeFound(chars: string, p: nat, word: char -> bool)
    requires p < |chars| && chars[p] == '`' && !Escaped(chars, p) && Encloses(chars, p, "`")
    ensures Inside(Scan(chars, 0, word), p)
  {
    ScanComplete(chars, 0, p, word);
    CodeOpens(chars, p, word, p);
  }

  /** The leftmost construct that opens from a column on is found as it stands. */
  lemma {:induction false} FirstFound(chars: string, i: nat, p: nat, word: char -> bool)
    requires i <= p < |chars| && !Escaped(chars, p) && Construct(chars, p, word).Some?
    requires forall j: nat :: i <= j < p ==> Escaped(chars, j) || Construct(chars, j, word).None?
    ensures Construct(chars, p, word).value.0 <= Scan(chars, i, word)
    decreases p - i
  {
    ScanCases(chars, i, word);
    if i < p { FirstFound(chars, i + 1, p, word); }
  }
}
