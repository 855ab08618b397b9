/** The pure logic of the project workspace page: `formatProjectId`, which
    turns a route id such as "market-trends_2026" into a title, and the
    catalog lookup that picks the header shown for a route id. */
module ProjectPage {
  import opened Wrappers

  /** JavaScript's `\s` class: TAB..CR, SPACE, NO-BREAK SPACE, the Unicode
      space separators, LINE and PARAGRAPH SEPARATOR and the byte order mark. */
  predicate IsJsSpace(c: char) {
    || ('\t' <= c <= '\r')
    || c == ' ' || c == '\U{a0}' || c == '\U{1680}'
    || ('\U{2000}' <= c <= '\U{200a}')
    || c == '\U{2028}' || c == '\U{2029}' || c == '\U{202f}' || c == '\U{205f}' || c == '\U{3000}' || c == '\U{feff}'
  }

  /** A character of the class `[-_\s]`. */
  predicate IsSeparator(c: char) {
    c == '-' || c == '_' || IsJsSpace(c)
  }

  predicate NoSeparator(w: string) {
    forall i :: 0 <= i < |w| ==> !IsSeparator(w[i])
  }

  /** A word of a formatted id: non-empty and free of separators. */
  predicate IsWord(w: string) {
    w != [] && NoSeparator(w)
  }

  /** First separator at or after i (or |s|). */
  function WordEnd(s: string, i: nat): (k: nat)
    requires i <= |s|
    ensures i <= k <= |s|
    ensures forall j :: i <= j < k ==> !IsSeparator(s[j])
    ensures k < |s| ==> IsSeparator(s[k])
    decreases |s| - i
  {
    if i < |s| && !IsSeparator(s[i]) then WordEnd(s, i + 1) else i
  }

  /** End of the run of separators that starts at i. */
  function RunEnd(s: string, i: nat): (k: nat)
    requires i <= |s|
    ensures i <= k <= |s|
    ensures forall j :: i <= j < k ==> IsSeparator(s[j])
    ensures k < |s| ==> !IsSeparator(s[k])
    decreases |s| - i
  {
    if i < |s| && IsSeparator(s[i]) then RunEnd(s, i + 1) else i
  }

  /** `s.split(/[-_\s]+/)`: the pieces between maximal runs of separators,
      including an empty piece before a leading run and after a trailing one. */
  function Split(s: string): (parts: seq<string>)
    ensures parts != []
    ensures forall p :: p in parts ==> NoSeparator(p)
    decreases |s|
  {
    var i := WordEnd(s, 0);
    if i == |s| then [s]
    else [s[..i]] + Split(s[RunEnd(s, i)..])
  }

  /** `.filter(Boolean)` on strings: drops the empty ones, keeping order. */
  function NonEmpty(parts: seq<string>): (ws: seq<string>)
    ensures forall w :: w in ws ==> w in parts && w != []
  {
    if parts == [] then []
    else if parts[0] == [] then NonEmpty(parts[1..])
    else [parts[0]] + NonEmpty(parts[1..])
  }

  /** The words of an id: the non-empty pieces between separator runs. */
  function Words(s: string): (ws: seq<string>)
    ensures forall w :: w in ws ==> IsWord(w)
  {
    NonEmpty(Split(s))
  }

  /** `toUpperCase` on one character, for the ASCII letters. */
  function ToUpper(c: char): char {
    if 'a' <= c <= 'z' then (c as int - 32) as char else c
  }

  /** `part.charAt(0).toUpperCase() + part.slice(1)`. */
  function Capitalize(w: string): (r: string)
    ensures |r| == |w|
    ensures IsWord(w) ==> IsWord(r) && r[0] == ToUpper(w[0]) && r[1..] == w[1..]
  {
    if w == [] then [] else [ToUpper(w[0])] + w[1..]
  }

  function CapitalizeAll(ws: seq<string>): (rs: seq<string>)
    ensures |rs| == |ws|
  {
    seq(|ws|, i requires 0 <= i < |ws| => Capitalize(ws[i]))
  }

  /** `Array.prototype.join(sep)`. */
  function Join(ws: seq<string>, sep: string): string {
    if ws == [] then ""
    else if |ws| == 1 then ws[0]
    else ws[0] + sep + Join(ws[1..], sep)
  }

  /** The only whitespace is single spaces between two word characters:
      no leading, trailing or doubled space, and no `-` or `_` at all. */
  predicate WellSpaced(r: string) {
    && (forall i :: 0 <= i < |r| ==> r[i] != '-' && r[i] != '_')
    && (forall i :: 0 <= i < |r| && IsJsSpace(r[i]) ==> SingleSpaceAt(r, i))
  }

  predicate SingleSpaceAt(r: string, i: int) {
    && 0 < i < |r| - 1
    && r[i] == ' '
    && !IsSeparator(r[i - 1]) && !IsSeparator(r[i + 1])
  }

  /** `formatProjectId(projectId)`: a missing or empty id gives ""; otherwise
      the words of the id, each with its first character upper-cased, joined
      by single spaces. */
  function FormatProjectId(projectId: Option<string>): (r: string)
    ensures projectId == None || projectId == Some("") ==> r == ""
    ensures WellSpaced(r)
    ensures Words(r) == CapitalizeAll(Words(projectId.GetOr("")))
    ensures r == "" <==> Words(projectId.GetOr("")) == []
  {
    var ws := CapitalizeAll(Words(projectId.GetOr("")));
    CapitalizedWords(Words(projectId.GetOr("")));
    JoinWellSpaced(ws);
    WordsOfJoin(ws);
    JoinEmpty(ws);
    Join(ws, " ")
  }

  // ----------------------------------------------------------------- lemmas

  lemma ToUpperKeepsWordCharacters(c: char)
    ensures !IsSeparator(c) ==> !IsSeparator(ToUpper(c))
    ensures ToUpper(ToUpper(c)) == ToUpper(c)
  {
  }

  /** Capitalised words are still words, and capitalising is idempotent. */
  lemma CapitalizedWords(ws: seq<string>)
    requires forall w :: w in ws ==> IsWord(w)
    ensures forall w :: w in CapitalizeAll(ws) ==> IsWord(w)
    ensures CapitalizeAll(CapitalizeAll(ws)) == CapitalizeAll(ws)
  {
    var cs := CapitalizeAll(ws);
    forall i | 0 <= i < |ws|
      ensures IsWord(cs[i]) && Capitalize(cs[i]) == cs[i]
    {
      assert ws[i] in ws;
      var w := ws[i];
      ToUpperKeepsWordCharacters(w[0]);
      forall j | 0 <= j < |cs[i]|
        ensures !IsSeparator(cs[i][j])
      {
        if j > 0 {
          assert cs[i][j] == w[j];
        }
      }
    }
  }

  lemma JoinEmpty(ws: seq<string>)
    requires forall w :: w in ws ==> IsWord(w)
    ensures Join(ws, " ") == "" <==> ws == []
  {
    if |ws| >= 1 {
      assert ws[0] in ws;
    }
  }

  /** Words joined by single spaces are well spaced and start and end with a
      character of the first and last word. */
  lemma {:induction false} JoinWellSpaced(ws: seq<string>)
    requires forall w :: w in ws ==> IsWord(w)
    ensures WellSpaced(Join(ws, " "))
    ensures ws != [] ==> |Join(ws, " ")| >= |ws[0]| && Join(ws, " ")[..|ws[0]|] == ws[0]
  {
    if |ws| == 1 {
      assert ws[0] in ws;
    } else if |ws| > 1 {
      var w, rest := ws[0], ws[1..];
      assert w in ws;
      assert rest[0] in ws;
      JoinWellSpaced(rest);
      var j := Join(rest, " ");
      var r := Join(ws, " ");
      assert r == w + " " + j;
      assert forall i :: 0 <= i < |w| ==> r[i] == w[i];
      forall i | 0 <= i < |r| && IsJsSpace(r[i])
        ensures SingleSpaceAt(r, i)
      {
        if i > |w| {
          assert r[i] == j[i - |w| - 1];
          assert SingleSpaceAt(j, i - |w| - 1);
          assert r[i - 1] == j[i - |w| - 2];
          assert r[i + 1] == j[i - |w|];
        } else if i == |w| {
          assert r[i - 1] == w[|w| - 1];
          assert r[i + 1] == j[0] == rest[0][0];
        }
      }
      forall i | 0 <= i < |r|
        ensures r[i] != '-' && r[i] != '_'
      {
        if i < |w| {
          assert r[i] == w[i];
        } else if i > |w| {
          assert r[i] == j[i - |w| - 1];
        }
      }
    }
  }

  lemma {:induction false} NonEmptyOfWords(ws: seq<string>)
    requires forall w :: w in ws ==> w != []
    ensures NonEmpty(ws) == ws
  {
    if ws != [] {
      assert ws[0] in ws;
      assert forall w :: w in ws[1..] ==> w in ws;
      NonEmptyOfWords(ws[1..]);
    }
  }

  /** Splitting words joined by single spaces gives the words back. */
  lemma {:induction false} SplitJoin(ws: seq<string>)
    requires ws != []
    requires forall w :: w in ws ==> IsWord(w)
    ensures Split(Join(ws, " ")) == ws
  {
    var w := ws[0];
    assert w in ws;
    if |ws| == 1 {
      assert WordEnd(w, 0) == |w|;
    } else {
      var rest := ws[1..];
      assert rest[0] in ws;
      var j := Join(rest, " ");
      var s := Join(ws, " ");
      assert s == w + " " + j;
      JoinWellSpaced(rest);
      assert s[|w|] == ' ';
      assert forall k :: 0 <= k < |w| ==> s[k] == w[k];
      var i := WordEnd(s, 0);
      assert i == |w|;
      assert s[|w| + 1] == rest[0][0];
      assert RunEnd(s, |w|) == |w| + 1;
      assert s[..i] == w;
      assert s[|w| + 1..] == j;
      SplitJoin(rest);
    }
  }

  /** The words of words joined by single spaces are those words: the
      round trip that makes formatting idempotent. */
  lemma WordsOfJoin(ws: seq<string>)
    requires forall w :: w in ws ==> IsWord(w)
    ensures Words(Join(ws, " ")) == ws
  {
    if ws == [] {
      assert Split("") == [""];
    } else {
      SplitJoin(ws);
      NonEmptyOfWords(ws);
    }
  }

  // ------------------------------------------------- where the words break

  /** Every character is a separator (the empty string included). */
  predicate AllSeparators(s: string) {
    forall i :: 0 <= i < |s| ==> IsSeparator(s[i])
  }

  /** A non-empty run of separators: what `[-_\s]+` matches. */
  predicate IsRun(s: string) {
    s != [] && AllSeparators(s)
  }

  /** The words with run k placed between word k and word k + 1. */
  function Interleave(ws: seq<string>, seps: seq<string>): (s: string)
    requires |seps| + 1 == |ws| || (ws == [] && seps == [])
    ensures ws != [] ==> |s| >= |ws[0]| && s[..|ws[0]|] == ws[0]
  {
    if ws == [] then ""
    else if |ws| == 1 then ws[0]
    else ws[0] + seps[0] + Interleave(ws[1..], seps[1..])
  }

  /** WordEnd stops at the first separator. */
  lemma WordEndIs(s: string, k: nat)
    requires k <= |s|
    requires forall j :: 0 <= j < k ==> !IsSeparator(s[j])
    requires k < |s| ==> IsSeparator(s[k])
    ensures WordEnd(s, 0) == k
  {
  }

  /** RunEnd stops at the first non-separator after i. */
  lemma RunEndIs(s: string, i: nat, k: nat)
    requires i <= k <= |s|
    requires forall j :: i <= j < k ==> IsSeparator(s[j])
    requires k < |s| ==> !IsSeparator(s[k])
    ensures RunEnd(s, i) == k
  {
  }

  /** A word, a run of separators, then text that starts with a
      non-separator: the word ends where the run starts and the run ends
      where the text starts. */
  lemma {:induction false} WordThenRun(w: string, sep: string, t: string)
    requires IsWord(w) && AllSeparators(sep)
    requires t != [] ==> !IsSeparator(t[0])
    ensures sep != [] || t == [] ==> WordEnd(w + sep + t, 0) == |w|
    ensures RunEnd(w + sep + t, |w|) == |w| + |sep|
    ensures (w + sep + t)[..|w|] == w && (w + sep + t)[|w| + |sep|..] == t
  {
    var s := w + sep + t;
    assert forall k :: 0 <= k < |w| ==> s[k] == w[k];
    assert forall k :: 0 <= k < |sep| ==> s[|w| + k] == sep[k];
    assert forall j :: |w| <= j < |w| + |sep| ==> IsSeparator(s[j]) by {
      forall j | |w| <= j < |w| + |sep|
        ensures IsSeparator(s[j])
      {
        assert s[j] == sep[j - |w|];
      }
    }
    if t != [] {
      assert s[|w| + |sep|] == t[0];
    }
    if sep != [] || t == [] {
      WordEndIs(s, |w|);
    }
    RunEndIs(s, |w|, |w| + |sep|);
    assert s[..|w|] == w;
    assert s[|w| + |sep|..] == t;
  }

  /** One step of `Split`: the piece up to the first separator, then the
      pieces after the run that follows it. */
  lemma SplitStep(s: string, i: nat, k: nat)
    requires i < |s| && WordEnd(s, 0) == i && RunEnd(s, i) == k
    ensures Split(s) == [s[..i]] + Split(s[k..])
  {
  }

  /** A word followed by separators only: the word, then one empty piece
      when the separators are not empty. */
  lemma {:induction false} SplitWordTrail(w: string, trail: string)
    requires IsWord(w) && AllSeparators(trail)
    ensures Split(w + trail) == [w] + (if trail == [] then [] else [""])
  {
    WordThenRun(w, trail, "");
    assert w + trail + "" == w + trail;
    if trail == [] {
      assert w + trail == w;
    } else {
      SplitStep(w + trail, |w|, |w + trail|);
      assert Split("") == [""];
    }
  }

  /** A word, a run, then text starting with a word character: the word,
      then the pieces of the text. */
  lemma {:induction false} SplitWordRun(w: string, sep: string, t: string)
    requires IsWord(w) && IsRun(sep)
    requires t != [] && !IsSeparator(t[0])
    ensures Split(w + sep + t) == [w] + Split(t)
  {
    WordThenRun(w, sep, t);
    SplitStep(w + sep + t, |w|, |w| + |sep|);
  }

  /** `Split` cuts exactly at the runs: words separated by runs, followed by
      a possibly empty run, split into those words, plus one empty piece
      after a trailing run. */
  lemma {:induction false} SplitInterleave(ws: seq<string>, seps: seq<string>, trail: string)
    requires ws != [] && |seps| + 1 == |ws|
    requires forall w :: w in ws ==> IsWord(w)
    requires forall sep :: sep in seps ==> IsRun(sep)
    requires AllSeparators(trail)
    ensures Split(Interleave(ws, seps) + trail) == ws + (if trail == [] then [] else [""])
    decreases |ws|
  {
    assert ws[0] in ws;
    if |ws| == 1 {
      SplitWordTrail(ws[0], trail);
    } else {
      var rest, srest := ws[1..], seps[1..];
      assert seps[0] in seps;
      assert forall x :: x in rest ==> x in ws;
      assert forall x :: x in srest ==> x in seps;
      var t := Interleave(rest, srest) + trail;
      InterleaveStartsWithWord(rest, srest, trail);
      assert Interleave(ws, seps) + trail == ws[0] + seps[0] + t;
      SplitWordRun(ws[0], seps[0], t);
      SplitInterleave(rest, srest, trail);
    }
  }

  /** A leading run adds one empty piece in front. */
  lemma {:induction false} SplitLead(lead: string, t: string)
    requires IsRun(lead)
    requires t != [] ==> !IsSeparator(t[0])
    ensures Split(lead + t) == [""] + Split(t)
  {
    var s := lead + t;
    assert forall k :: 0 <= k < |lead| ==> s[k] == lead[k];
    if t != [] {
      assert s[|lead|] == t[0];
    }
    WordEndIs(s, 0);
    RunEndIs(s, 0, |lead|);
    SplitStep(s, 0, |lead|);
    assert s[..0] == "" && s[|lead|..] == t;
  }

  /** A string of separators only has no words. */
  lemma {:induction false} WordsOfSeparators(s: string)
    requires AllSeparators(s)
    ensures Words(s) == []
  {
    if s == [] {
      assert Split(s) == [""];
    } else {
      SplitLead(s, "");
      assert s + "" == s;
      assert Split("") == [""];
      assert Split(s) == ["", ""];
      assert NonEmpty(["", ""]) == NonEmpty([""]) == [];
    }
  }

  /** Separators in front of text that starts with a word change nothing. */
  lemma {:induction false} WordsAfterLead(lead: string, t: string)
    requires AllSeparators(lead)
    requires t != [] ==> !IsSeparator(t[0])
    ensures Words(lead + t) == Words(t)
  {
    if lead == [] {
      assert lead + t == t;
    } else {
      SplitLead(lead, t);
    }
  }

  lemma {:induction false} NonEmptyAppend(a: seq<string>, b: seq<string>)
    ensures NonEmpty(a + b) == NonEmpty(a) + NonEmpty(b)
  {
    if a != [] {
      assert (a + b)[0] == a[0] && (a + b)[1..] == a[1..] + b;
      NonEmptyAppend(a[1..], b);
    } else {
      assert a + b == b;
    }
  }

  /** The words of an id are exactly the pieces between its separator runs:
      words joined by any non-empty runs of `-`, `_` and whitespace, with any
      runs before and after, give back exactly those words. */
  lemma {:induction false} WordBoundaries(lead: string, ws: seq<string>, seps: seq<string>, trail: string)
    requires forall w :: w in ws ==> IsWord(w)
    requires |seps| + 1 == |ws| || (ws == [] && seps == [])
    requires forall sep :: sep in seps ==> IsRun(sep)
    requires AllSeparators(lead) && AllSeparators(trail)
    ensures Words(lead + Interleave(ws, seps) + trail) == ws
  {
    if ws == [] {
      WordsOfLeadTrail(lead, trail);
    } else {
      WordsOfLeadInterleave(lead, ws, seps, trail);
    }
  }

  lemma {:induction false} WordsOfLeadTrail(lead: string, trail: string)
    requires AllSeparators(lead) && AllSeparators(trail)
    ensures Words(lead + Interleave([], []) + trail) == []
  {
    SeparatorsAppend(lead, trail);
    assert lead + Interleave([], []) + trail == lead + trail;
    WordsOfSeparators(lead + trail);
  }

  lemma {:induction false} WordsOfLeadInterleave(lead: string, ws: seq<string>, seps: seq<string>, trail: string)
    requires ws != [] && |seps| + 1 == |ws|
    requires forall w :: w in ws ==> IsWord(w)
    requires forall sep :: sep in seps ==> IsRun(sep)
    requires AllSeparators(lead) && AllSeparators(trail)
    ensures Words(lead + Interleave(ws, seps) + trail) == ws
  {
    var body := Interleave(ws, seps) + trail;
    WordsOfInterleave(ws, seps, trail);
    InterleaveStartsWithWord(ws, seps, trail);
    assert lead + Interleave(ws, seps) + trail == lead + body;
    WordsAfterLead(lead, body);
  }

  lemma {:induction false} InterleaveStartsWithWord(ws: seq<string>, seps: seq<string>, trail: string)
    requires ws != [] && |seps| + 1 == |ws|
    requires forall w :: w in ws ==> IsWord(w)
    ensures ws[0] != [] && (Interleave(ws, seps) + trail)[0] == ws[0][0]
    ensures !IsSeparator(ws[0][0])
  {
    assert ws[0] in ws;
    var t := Interleave(ws, seps);
    assert t[..|ws[0]|] == ws[0];
    assert t[0] == ws[0][0];
  }

  lemma SeparatorsAppend(a: string, b: string)
    requires AllSeparators(a) && AllSeparators(b)
    ensures AllSeparators(a + b)
  {
    forall k | 0 <= k < |a + b|
      ensures IsSeparator((a + b)[k])
    {
      if k >= |a| {
        assert (a + b)[k] == b[k - |a|];
      }
    }
  }

  /** The words of words separated by runs, with a trailing run, are those
      words. */
  lemma {:induction false} WordsOfInterleave(ws: seq<string>, seps: seq<string>, trail: string)
    requires ws != [] && |seps| + 1 == |ws|
    requires forall w :: w in ws ==> IsWord(w)
    requires forall sep :: sep in seps ==> IsRun(sep)
    requires AllSeparators(trail)
    ensures Words(Interleave(ws, seps) + trail) == ws
  {
    var tailPiece: seq<string> := if trail == [] then [] else [""];
    SplitInterleave(ws, seps, trail);
    NonEmptyOfWords(ws);
    NonEmptyAppend(ws, tailPiece);
    assert NonEmpty(tailPiece) == [];
  }

  /** The route id of the demo project formats to its catalog title. */
  lemma FormatDemoId()
    ensures FormatProjectId(Some("market-trends_2026")) == "Market Trends 2026"
  {
    DemoWords();
    DemoCapitalized();
    DemoJoin();
    assert FormatProjectId(Some("market-trends_2026")) == Join(CapitalizeAll(Words("market-trends_2026")), " ");
  }

  lemma DemoCapitalized()
    ensures CapitalizeAll(["market", "trends", "2026"]) == ["Market", "Trends", "2026"]
  {
    assert ToUpper('m') == 'M' && ToUpper('t') == 'T' && ToUpper('2') == '2';
    assert Capitalize("market") == "Market" && Capitalize("trends") == "Trends" && Capitalize("2026") == "2026";
  }

  lemma DemoJoin()
    ensures Join(["Market", "Trends", "2026"], " ") == "Market Trends 2026"
  {
    var cs := ["Market", "Trends", "2026"];
    assert Join(cs[2..], " ") == "2026";
    assert Join(cs[1..], " ") == "Trends 2026";
  }

  lemma DemoWords()
    ensures Words("market-trends_2026") == ["market", "trends", "2026"]
  {
    var ws, seps := ["market", "trends", "2026"], ["-", "_"];
    assert Interleave(ws[2..], seps[2..]) == "2026";
    assert Interleave(ws[1..], seps[1..]) == "trends_2026";
    assert Interleave(ws, seps) == "market-trends_2026";
    assert forall w :: w in ws ==> IsWord(w);
    assert forall sep :: sep in seps ==> IsRun(sep);
    WordBoundaries("", ws, seps, "");
    assert "" + Interleave(ws, seps) + "" == "market-trends_2026";
  }

  /** Formatting an already formatted id returns it unchanged. */
  lemma FormatIdempotent(projectId: Option<string>)
    ensures FormatProjectId(Some(FormatProjectId(projectId))) == FormatProjectId(projectId)
  {
    var ws := CapitalizeAll(Words(projectId.GetOr("")));
    CapitalizedWords(Words(projectId.GetOr("")));
  }

  // ------------------------------------------- Words keeps every word character

  /** The characters of s that are not separators, in order. */
  function WordCharacters(s: string): string {
    if s == [] then []
    else (if IsSeparator(s[0]) then [] else [s[0]]) + WordCharacters(s[1..])
  }

  function Concat(ws: seq<string>): string {
    if ws == [] then [] else ws[0] + Concat(ws[1..])
  }

  lemma {:induction false} WordCharactersAppend(a: string, b: string)
    ensures WordCharacters(a + b) == WordCharacters(a) + WordCharacters(b)
  {
    if a != [] {
      assert (a + b)[1..] == a[1..] + b;
      WordCharactersAppend(a[1..], b);
    } else {
      assert a + b == b;
    }
  }

  lemma {:induction false} WordCharactersOfWord(w: string)
    requires NoSeparator(w)
    ensures WordCharacters(w) == w
  {
    if w != [] {
      WordCharactersOfWord(w[1..]);
    }
  }

  lemma {:induction false} WordCharactersOfRun(s: string)
    requires forall i :: 0 <= i < |s| ==> IsSeparator(s[i])
    ensures WordCharacters(s) == []
  {
    if s != [] {
      WordCharactersOfRun(s[1..]);
    }
  }

  lemma {:induction false} ConcatNonEmpty(parts: seq<string>)
    ensures Concat(NonEmpty(parts)) == Concat(parts)
  {
    if parts != [] {
      ConcatNonEmpty(parts[1..]);
    }
  }

  lemma {:induction false} ConcatCons(a: string, rest: seq<string>)
    ensures Concat([a] + rest) == a + Concat(rest)
  {
    assert ([a] + rest)[0] == a && ([a] + rest)[1..] == rest;
  }

  /** A word followed by a separator run contributes just the word. */
  lemma {:induction false} WordCharactersPiece(s: string, i: nat, k: nat)
    requires i <= k <= |s|
    requires NoSeparator(s[..i])
    requires forall j :: i <= j < k ==> IsSeparator(s[j])
    ensures WordCharacters(s) == s[..i] + WordCharacters(s[k..])
  {
    var word, run, after := s[..i], s[i..k], s[k..];
    assert s == word + (run + after);
    forall j | 0 <= j < |run|
      ensures IsSeparator(run[j])
    {
      assert run[j] == s[i + j];
    }
    WordCharactersAppend(word, run + after);
    WordCharactersAppend(run, after);
    WordCharactersOfWord(word);
    WordCharactersOfRun(run);
  }

  lemma {:induction false} ConcatSplit(s: string)
    ensures Concat(Split(s)) == WordCharacters(s)
    decreases |s|
  {
    var i := WordEnd(s, 0);
    if i == |s| {
      WordCharactersOfWord(s);
    } else {
      var k := RunEnd(s, i);
      ConcatSplit(s[k..]);
      assert Split(s) == [s[..i]] + Split(s[k..]);
      ConcatCons(s[..i], Split(s[k..]));
      WordCharactersPiece(s, i, k);
    }
  }

  /** Splitting into words loses or reorders no character other than the
      separators: the words, concatenated, are the id without separators. */
  lemma WordsKeepCharacters(s: string)
    ensures Concat(Words(s)) == WordCharacters(s)
  {
    ConcatNonEmpty(Split(s));
    ConcatSplit(s);
  }

  // ---------------------------------------------------------- catalog lookup

  datatype ProjectInfo = ProjectInfo(name: string, description: string)

  const ProjectCatalog: map<string, ProjectInfo> := map[
    "demo" := ProjectInfo("Market Trends 2026", "Research workspace for market reports, interview notes, and trend analysis."),
    "alpha" := ProjectInfo("AI Adoption Research", "Analyze adoption patterns, blockers, and opportunities across customer segments.")
  ]

  const UntitledProject: string := "Untitled Project"
  const PlaceholderDescription: string := "Project details will appear here once your project metadata is available."

  /** The header for an id the catalog does not know: the formatted id, or
      "Untitled Project" when the id has no words, with the placeholder
      description. */
  function Fallback(projectId: string): (p: ProjectInfo)
    ensures p.description == PlaceholderDescription
    ensures p.name != ""
    ensures Words(projectId) == [] ==> p.name == UntitledProject
    ensures Words(projectId) != [] ==> WellSpaced(p.name) && Words(p.name) == CapitalizeAll(Words(projectId))
  {
    var formatted := FormatProjectId(Some(projectId));
    ProjectInfo(if formatted == "" then UntitledProject else formatted, PlaceholderDescription)
  }

  /** The `project` memo of the page, looking the id up among the catalog's
      own entries: a catalog entry verbatim, else the formatted id (or
      "Untitled Project" when the id has no words) with the placeholder
      description. */
  function ResolveProject(projectId: string): (p: ProjectInfo)
    ensures projectId in ProjectCatalog ==> p == ProjectCatalog[projectId]
    ensures projectId !in ProjectCatalog ==>
      && p.description == PlaceholderDescription
      && p.name != ""
      && (Words(projectId) == [] ==> p.name == UntitledProject)
      && (Words(projectId) != [] ==> WellSpaced(p.name) && Words(p.name) == CapitalizeAll(Words(projectId)))
  {
    if projectId in ProjectCatalog then ProjectCatalog[projectId] else Fallback(projectId)
  }

  // ------------------------------------ the lookup as written: a plain object

  /** Methods every object literal inherits from `Object.prototype`. */
  const ObjectPrototypeMethods: set<string> := {
    "constructor", "hasOwnProperty", "isPrototypeOf", "propertyIsEnumerable",
    "toLocaleString", "toString", "valueOf",
    "__defineGetter__", "__defineSetter__", "__lookupGetter__", "__lookupSetter__"
  }

  /** What `projectCatalog[projectId]` reads: an own entry, an inherited
      method (a function, whose `name` is the method name, or "Object" for
      `constructor`), `Object.prototype` itself for `__proto__`, or undefined. */
  datatype Property = OwnEntry(info: ProjectInfo) | InheritedFunction(fnName: string) | InheritedPrototype | Undefined

  function CatalogProperty(projectId: string): (p: Property)
    ensures p.OwnEntry? <==> projectId in ProjectCatalog
    ensures p.OwnEntry? ==> p.info == ProjectCatalog[projectId]
    ensures p.Undefined? <==> projectId !in ProjectCatalog && projectId !in ObjectPrototypeMethods && projectId != "__proto__"
    ensures p.InheritedFunction? ==> projectId in ObjectPrototypeMethods && p.fnName != ""
  {
    if projectId in ProjectCatalog then OwnEntry(ProjectCatalog[projectId])
    else if projectId in ObjectPrototypeMethods then InheritedFunction(if projectId == "constructor" then "Object" else projectId)
    else if projectId == "__proto__" then InheritedPrototype
    else Undefined
  }

  /** The rendered header: `project.name` and `project.description`, each
      None when undefined. */
  datatype Header = Header(name: Option<string>, description: Option<string>)

  function HeaderOf(p: ProjectInfo): Header {
    Header(Some(p.name), Some(p.description))
  }

  /** The memo as written: any truthy property, inherited ones included, is
      taken as the project. */
  function ResolveProjectAsWritten(projectId: string): (h: Header)
    ensures h.description.None? <==> projectId in ObjectPrototypeMethods + {"__proto__"} && projectId !in ProjectCatalog
  {
    match CatalogProperty(projectId)
    case OwnEntry(info) => HeaderOf(info)
    case InheritedFunction(fnName) => Header(Some(fnName), None)
    case InheritedPrototype => Header(None, None)
    case Undefined => HeaderOf(Fallback(projectId))
  }

  /** Off the inherited names the written lookup and the own-key lookup agree. */
  lemma AsWrittenAgreesOffPrototype(projectId: string)
    requires projectId !in ObjectPrototypeMethods && projectId != "__proto__"
    ensures ResolveProjectAsWritten(projectId) == HeaderOf(ResolveProject(projectId))
  {
  }

  /** The route id "toString" renders the header "toString" with no
      description, where the fallback promises "ToString" and the placeholder. */
  lemma InheritedIdShowsFunctionName()
    ensures ResolveProjectAsWritten("toString") == Header(Some("toString"), None)
    ensures ResolveProject("toString") == ProjectInfo("ToString", PlaceholderDescription)
  {
    var id := "toString";
    assert id !in ProjectCatalog;
    assert NoSeparator(id);
    WordsOfJoin([id]);
    assert Join([id], " ") == id;
    assert Words(id) == [id];
    assert ToUpper('t') == 'T';
    assert Capitalize(id) == "ToString";
    var ws := CapitalizeAll([id]);
    assert ws == ["ToString"];
    assert Join(ws, " ") == "ToString";
  }
}
