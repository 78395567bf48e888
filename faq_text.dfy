/** The text helpers of the FAQ edge function: the question and noise
    tests, the canonical key of a question, and the tag stripper that every
    extractor runs its captures through. Each regular expression with the
    `g` flag is modelled by `ReplaceAll` over a `Pattern`, whose `MatchAt`
    says where and how long the regular expression matches. */
module FaqText {
  import opened Strings

  // ---------------------------------------------------------------------
  // QUESTION_RE and isQuestion

  /** The alternatives of `\b(hoe|wat|...)\b` in QUESTION_RE. */
  const QuestionWords: seq<string> :=
    ["hoe", "wat", "waar", "wanneer", "welke", "kan", "mag", "is", "zijn",
     "werkt", "hoeveel", "waarom", "krijg", "doet"]

  /** `\bw\b` matches `t` at `i`, ignoring case. */
  predicate WordAt(t: string, i: int, w: string) {
    && OccursAtCI(t, i, w)
    && (i == 0 || !IsWordChar(t[i - 1]))
    && (i + |w| == |t| || !IsWordChar(t[i + |w|]))
  }

  /** Some question word occurs in `t` as a whole word. */
  predicate HasQuestionWord(t: string) {
    exists j, i :: 0 <= j < |QuestionWords| && 0 <= i <= |t| && WordAt(t, i, QuestionWords[j])
  }

  /** The first index at or after `from` where `w` occurs in `t` as a whole
      word, ignoring case, or -1. */
  function IndexOfWord(t: string, w: string, from: nat): (r: int)
    requires from <= |t|
    ensures r == -1 || (from <= r <= |t| && WordAt(t, r, w))
    ensures forall i :: from <= i <= |t| && (r == -1 || i < r) ==> !WordAt(t, i, w)
    decreases |t| - from
  {
    if from + |w| > |t| then -1
    else if WordAt(t, from, w) then from
    else if from == |t| then -1
    else IndexOfWord(t, w, from + 1)
  }

  /** The question-word alternation of QUESTION_RE, tried from word `j` on. */
  function QuestionWordFrom(t: string, j: nat): bool
    requires j <= |QuestionWords|
    decreases |QuestionWords| - j
  {
    j < |QuestionWords| && (IndexOfWord(t, QuestionWords[j], 0) >= 0 || QuestionWordFrom(t, j + 1))
  }

  /** `QUESTION_RE.test(t)`: `t` ends in a question mark (`\?$`) or holds one
      of the question words as a whole word. */
  predicate MatchesQuestionRe(t: string) {
    (t != [] && t[|t| - 1] == '?') || QuestionWordFrom(t, 0)
  }

  lemma {:induction false} QuestionWordFromSpec(t: string, j: nat)
    requires j <= |QuestionWords|
    ensures QuestionWordFrom(t, j) <==>
      exists k, i :: j <= k < |QuestionWords| && 0 <= i <= |t| && WordAt(t, i, QuestionWords[k])
    decreases |QuestionWords| - j
  {
    if j < |QuestionWords| {
      QuestionWordFromSpec(t, j + 1);
      var r := IndexOfWord(t, QuestionWords[j], 0);
      if r >= 0 {
        assert WordAt(t, r, QuestionWords[j]);
      }
    }
  }

  /** `isQuestion`: a non-empty string whose trimmed form matches QUESTION_RE. */
  function IsQuestion(s: string): bool {
    s != [] && MatchesQuestionRe(Trim(s))
  }

  /** A string is a question exactly when it is non-empty and its trimmed
      form ends in `?` or holds a question word as a whole word; the trimmed
      form of a question is never blank. */
  lemma IsQuestionSpec(s: string)
    ensures IsQuestion(s) <==>
      s != [] && ((Trim(s) != [] && Trim(s)[|Trim(s)| - 1] == '?') || HasQuestionWord(Trim(s)))
    ensures IsQuestion(s) ==> Trim(s) != []
  {
    var t := Trim(s);
    QuestionWordFromSpec(t, 0);
    if HasQuestionWord(t) {
      var j, i :| 0 <= j < |QuestionWords| && 0 <= i <= |t| && WordAt(t, i, QuestionWords[j]);
      QuestionWordsNonEmpty();
      assert |QuestionWords[j]| > 0;
    }
  }

  lemma QuestionWordsNonEmpty()
    ensures forall j :: 0 <= j < |QuestionWords| ==> |QuestionWords[j]| >= 2
  {
  }

  // ---------------------------------------------------------------------
  // NOISE_RE

  /** The alternatives of NOISE_RE; `e-?mailadres` gives two of them. */
  const NoiseWords: seq<string> :=
    ["nieuwsbrief", "magazine", "verkooppunten", "stalen bestellen", "e-mailadres",
     "emailadres", "inschrijven", "winkel", "dealer", "gtag", "google-analytics", "cookie"]

  /** The alternation of NOISE_RE, tried from word `j` on. */
  function NoiseFrom(s: string, j: nat): bool
    requires j <= |NoiseWords|
    decreases |NoiseWords| - j
  {
    j < |NoiseWords| && (IndexOfCI(s, NoiseWords[j], 0) >= 0 || NoiseFrom(s, j + 1))
  }

  /** `NOISE_RE.test(s)` */
  predicate IsNoise(s: string) {
    NoiseFrom(s, 0)
  }

  lemma {:induction false} NoiseFromSpec(s: string, j: nat)
    requires j <= |NoiseWords|
    ensures NoiseFrom(s, j) <==> exists k :: j <= k < |NoiseWords| && ContainsCI(s, NoiseWords[k])
    decreases |NoiseWords| - j
  {
    if j < |NoiseWords| {
      NoiseFromSpec(s, j + 1);
      var r := IndexOfCI(s, NoiseWords[j], 0);
      if r >= 0 {
        assert OccursAtCI(s, r, NoiseWords[j]);
      }
    }
  }

  /** A string is noise exactly when it contains one of the noise words,
      ignoring case. */
  lemma IsNoiseSpec(s: string)
    ensures IsNoise(s) <==> exists j :: 0 <= j < |NoiseWords| && ContainsCI(s, NoiseWords[j])
  {
    NoiseFromSpec(s, 0);
  }

  // ---------------------------------------------------------------------
  // Global replacement

  /** The regular expressions that the helpers replace globally. */
  datatype Pattern =
    | BreakTag                      // <(?:\/)?(p|li|br)\b[^>]*>  with flag i
    | Element(names: seq<string>)   // <(n1|n2|...)[\s\S]*?<\/\1>  with flag i
    | AnyTag                        // <[^>]+>
    | SpaceRun(min: nat)            // \s+ (min 1) and \s{2,} (min 2)
    | NewlineRun(min: nat)          // \n{3,} (min 3)

  /** Length of the run of white space starting at `i`. */
  function SpaceRunLength(s: string, i: nat): (n: nat)
    requires i <= |s|
    ensures i + n <= |s|
    ensures forall k :: i <= k < i + n ==> IsSpace(s[k])
    ensures i + n < |s| ==> !IsSpace(s[i + n])
    decreases |s| - i
  {
    if i < |s| && IsSpace(s[i]) then 1 + SpaceRunLength(s, i + 1) else 0
  }

  /** Length of the run of line feeds starting at `i`. */
  function NewlineRunLength(s: string, i: nat): (n: nat)
    requires i <= |s|
    ensures i + n <= |s|
    ensures forall k :: i <= k < i + n ==> s[k] == '\n'
    decreases |s| - i
  {
    if i < |s| && s[i] == '\n' then 1 + NewlineRunLength(s, i + 1) else 0
  }

  /** `\b` after a tag name: the end of the input or a non-word character. */
  predicate WordEnd(s: string, k: nat) {
    k >= |s| || !IsWordChar(s[k])
  }

  /** Length of the name matched by `(p|li|br)\b` at `j`, or 0. */
  function BreakNameLength(s: string, j: nat): (n: nat)
    ensures n == 0 || j + n <= |s|
  {
    if OccursAtCI(s, j, "p") && WordEnd(s, j + 1) then 1
    else if OccursAtCI(s, j, "li") && WordEnd(s, j + 2) then 2
    else if OccursAtCI(s, j, "br") && WordEnd(s, j + 2) then 2
    else 0
  }

  /** `<(n1|n2|...)[\s\S]*?<\/\1>` at `i`: the first name, in order, whose
      opening text is at `i` and whose closing tag follows; the lazy body ends
      at the first closing tag. */
  function MatchElement(s: string, i: nat, names: seq<string>, j: nat): (r: Option<nat>)
    requires i < |s| && j <= |names|
    ensures r.Some? ==> 1 <= r.value <= |s| - i
    decreases |names| - j
  {
    if j == |names| then None
    else
      var open := "<" + names[j];
      var close := "</" + names[j] + ">";
      if OccursAtCI(s, i, open) then
        var c := IndexOfCI(s, close, i + |open|);
        if c >= 0 then Some(c + |close| - i) else MatchElement(s, i, names, j + 1)
      else MatchElement(s, i, names, j + 1)
  }

  /** Length of the match of `p` that starts at `i`, if there is one. */
  function MatchAt(p: Pattern, s: string, i: nat): (r: Option<nat>)
    requires i < |s|
    ensures r.Some? ==> 1 <= r.value <= |s| - i
  {
    match p
    case BreakTag =>
      if s[i] != '<' then None
      else
        var j := if i + 1 < |s| && s[i + 1] == '/' then i + 2 else i + 1;
        var n := BreakNameLength(s, j);
        if n == 0 then None
        else
          var c := IndexOfChar(s, '>', j + n);
          if c < 0 then None else Some(c + 1 - i)
    case Element(names) => MatchElement(s, i, names, 0)
    case AnyTag =>
      if s[i] == '<' && i + 1 < |s| && s[i + 1] != '>' then
        var c := IndexOfChar(s, '>', i + 2);
        if c < 0 then None else Some(c + 1 - i)
      else None
    case SpaceRun(m) =>
      var n := SpaceRunLength(s, i);
      if n >= m && n > 0 then Some(n) else None
    case NewlineRun(m) =>
      var n := NewlineRunLength(s, i);
      if n >= m && n > 0 then Some(n) else None
  }

  /** The global replacement from index `i` on: scanning left to right, each
      match is replaced by `rep` and scanning resumes after it. */
  function ReplaceFrom(p: Pattern, s: string, rep: string, i: nat): string
    requires i <= |s|
    decreases |s| - i
  {
    if i == |s| then ""
    else match MatchAt(p, s, i)
      case Some(n) => rep + ReplaceFrom(p, s, rep, i + n)
      case None => [s[i]] + ReplaceFrom(p, s, rep, i + 1)
  }

  /** `s.replace(/p/g, rep)` */
  function ReplaceAll(p: Pattern, s: string, rep: string): string {
    ReplaceFrom(p, s, rep, 0)
  }

  // ---------------------------------------------------------------------
  // normalize

  /** Every white-space character is a plain space. */
  predicate PlainSpaces(s: string) {
    forall k :: 0 <= k < |s| && IsSpace(s[k]) ==> s[k] == ' '
  }

  /** The shape of a canonical key: lower case, single plain spaces between
      words, nothing blank at either end. */
  predicate IsNormal(s: string) {
    IsLower(s) && PlainSpaces(s) && NoDoubleSpace(s) && Trimmed(s)
  }

  /** `normalize` (also `hashQuestion`): lower-case, replace each run of white
      space by one space, trim. The result is always in canonical shape. */
  function Normalize(s: string): (r: string)
    ensures IsNormal(r)
  {
    var l := Lower(s);
    var c := ReplaceAll(SpaceRun(1), l, " ");
    LowerIsLower(s);
    ReplaceKeepsLower(1, l, " ", 0);
    CollapseShape(l, 1, 0);
    CollapsePlainSpaces(l, 0);
    TrimKeepsNormalParts(c);
    Trim(c)
  }

  lemma NoDoubleSpaceConcat(a: string, b: string)
    requires NoDoubleSpace(a) && NoDoubleSpace(b)
    requires a != [] && b != [] ==> !(IsSpace(a[|a| - 1]) && IsSpace(b[0]))
    ensures NoDoubleSpace(a + b)
  {
    var c := a + b;
    forall k | 0 <= k < |c| - 1 ensures !SpacePairAt(c, k) {
      if k + 1 < |a| {
        assert c[k] == a[k] && c[k + 1] == a[k + 1];
        assert !SpacePairAt(a, k);
      } else if k >= |a| {
        assert c[k] == b[k - |a|] && c[k + 1] == b[k + 1 - |a|];
        assert !SpacePairAt(b, k - |a|);
      } else {
        assert c[k] == a[|a| - 1] && c[k + 1] == b[0];
      }
    }
  }

  /** Replacing white-space runs with lower-case text keeps lower-case text
      lower case. */
  lemma {:induction false} ReplaceKeepsLower(m: nat, s: string, rep: string, i: nat)
    requires i <= |s| && IsLower(s) && IsLower(rep)
    ensures IsLower(ReplaceFrom(SpaceRun(m), s, rep, i))
    decreases |s| - i
  {
    if i < |s| {
      match MatchAt(SpaceRun(m), s, i)
      case Some(n) =>
        ReplaceKeepsLower(m, s, rep, i + n);
        assert MatchAt(SpaceRun(m), s, i) == Some(n);
        assert IsLower(ReplaceFrom(SpaceRun(m), s, rep, i + n));
        ReplacedRunLower(m, s, rep, i, n);
      case None =>
        ReplaceKeepsLower(m, s, rep, i + 1);
        KeptCharLower(m, s, rep, i);
    }
  }

  /** A replaced white-space run becomes `rep`, which is lower case. */
  lemma ReplacedRunLower(m: nat, s: string, rep: string, i: nat, n: nat)
    requires i < |s| && IsLower(rep) && MatchAt(SpaceRun(m), s, i) == Some(n)
    requires IsLower(ReplaceFrom(SpaceRun(m), s, rep, i + n))
    ensures IsLower(ReplaceFrom(SpaceRun(m), s, rep, i))
  {
    var rest := ReplaceFrom(SpaceRun(m), s, rep, i + n);
    assert ReplaceFrom(SpaceRun(m), s, rep, i) == rep + rest;
    LowerConcat(rep, rest);
  }

  /** A character `\s` does not match at is kept, and it is lower case. */
  lemma KeptCharLower(m: nat, s: string, rep: string, i: nat)
    requires i < |s| && IsLower(s) && MatchAt(SpaceRun(m), s, i).None?
    requires IsLower(ReplaceFrom(SpaceRun(m), s, rep, i + 1))
    ensures IsLower(ReplaceFrom(SpaceRun(m), s, rep, i))
  {
    var rest := ReplaceFrom(SpaceRun(m), s, rep, i + 1);
    assert ReplaceFrom(SpaceRun(m), s, rep, i) == [s[i]] + rest;
    assert IsLower([s[i]]);
    LowerConcat([s[i]], rest);
  }

  lemma LowerConcat(a: string, b: string)
    requires IsLower(a) && IsLower(b)
    ensures IsLower(a + b)
  {
    assert forall k :: |a| <= k < |a + b| ==> (a + b)[k] == b[k - |a|];
  }

  /** Replacing runs of white space (`\s+` or `\s{2,}`) by one space leaves no
      two neighbouring white-space characters, and the result starts with
      white space exactly when the input does. */
  lemma {:induction false} CollapseShape(s: string, m: nat, i: nat)
    requires 1 <= m <= 2 && i <= |s|
    ensures NoDoubleSpace(ReplaceFrom(SpaceRun(m), s, " ", i))
    ensures i < |s| ==> ReplaceFrom(SpaceRun(m), s, " ", i) != []
    ensures i < |s| ==> (IsSpace(ReplaceFrom(SpaceRun(m), s, " ", i)[0]) <==> IsSpace(s[i]))
    decreases |s| - i
  {
    if i < |s| {
      var r := ReplaceFrom(SpaceRun(m), s, " ", i);
      var n := SpaceRunLength(s, i);
      match MatchAt(SpaceRun(m), s, i)
      case Some(len) =>
        assert len == n;
        CollapseShape(s, m, i + n);
        var rest := ReplaceFrom(SpaceRun(m), s, " ", i + n);
        assert r == " " + rest;
        NoDoubleSpaceConcat(" ", rest);
      case None =>
        CollapseShape(s, m, i + 1);
        var rest := ReplaceFrom(SpaceRun(m), s, " ", i + 1);
        assert r == [s[i]] + rest;
        NoDoubleSpaceConcat([s[i]], rest);
    }
  }

  /** After `replace(/\s+/g, " ")` the only white space left is plain spaces. */
  lemma {:induction false} CollapsePlainSpaces(s: string, i: nat)
    requires i <= |s|
    ensures PlainSpaces(ReplaceFrom(SpaceRun(1), s, " ", i))
    decreases |s| - i
  {
    if i < |s| {
      var r := ReplaceFrom(SpaceRun(1), s, " ", i);
      match MatchAt(SpaceRun(1), s, i)
      case Some(n) =>
        CollapsePlainSpaces(s, i + n);
        var rest := ReplaceFrom(SpaceRun(1), s, " ", i + n);
        assert r == " " + rest;
        assert forall k :: 0 <= k < |rest| ==> r[1 + k] == rest[k];
      case None =>
        CollapsePlainSpaces(s, i + 1);
        var rest := ReplaceFrom(SpaceRun(1), s, " ", i + 1);
        assert r == [s[i]] + rest;
        assert forall k :: 0 <= k < |rest| ==> r[1 + k] == rest[k];
    }
  }

  lemma TrimKeepsNormalParts(c: string)
    ensures IsLower(c) ==> IsLower(Trim(c))
    ensures PlainSpaces(c) ==> PlainSpaces(Trim(c))
    ensures NoDoubleSpace(c) ==> NoDoubleSpace(Trim(c))
  {
    TrimSpec(c);
    var a, b :| 0 <= a <= b <= |c| && Trim(c) == c[a..b];
    assert forall k :: 0 <= k < b - a ==> c[a..b][k] == c[a + k];
    if NoDoubleSpace(c) {
      NoDoubleSpaceSlice(c, a, b);
    }
  }

  /** On text that is already one space between words, `\s+` replacement
      changes nothing. */
  lemma {:induction false} CollapseFixed(t: string, i: nat)
    requires i <= |t| && NoDoubleSpace(t) && PlainSpaces(t)
    ensures ReplaceFrom(SpaceRun(1), t, " ", i) == t[i..]
    decreases |t| - i
  {
    if i < |t| {
      var n := SpaceRunLength(t, i);
      if IsSpace(t[i]) {
        assert i + 1 < |t| ==> !SpacePairAt(t, i);
        assert n == 1;
        assert MatchAt(SpaceRun(1), t, i) == Some(1);
        CollapseFixed(t, i + 1);
        assert t[i..] == [' '] + t[i + 1..];
      } else {
        assert MatchAt(SpaceRun(1), t, i) == None;
        CollapseFixed(t, i + 1);
        assert t[i..] == [t[i]] + t[i + 1..];
      }
    }
  }

  /** A canonical key is its own key. */
  lemma NormalFixed(t: string)
    requires IsNormal(t)
    ensures Normalize(t) == t
  {
    LowerOfLower(t);
    CollapseFixed(t, 0);
    assert t[0..] == t;
    TrimOfTrimmed(t);
  }

  /** `normalize` is idempotent, so a stored `question_hash` is the key of
      itself. */
  lemma NormalizeIdempotent(s: string)
    ensures Normalize(Normalize(s)) == Normalize(s)
  {
    NormalFixed(Normalize(s));
  }

  /** Questions that differ only in letter case have the same key. */
  lemma NormalizeIgnoresCase(s: string)
    ensures Normalize(Lower(s)) == Normalize(s)
  {
    LowerIsLower(s);
    LowerOfLower(Lower(s));
  }

  /** Length of the run of characters that are not white space at `i`. */
  function WordLength(s: string, i: nat): (n: nat)
    requires i <= |s|
    ensures i + n <= |s|
    ensures forall k :: i <= k < i + n ==> !IsSpace(s[k])
    ensures i + n < |s| ==> IsSpace(s[i + n])
    decreases |s| - i
  {
    if i < |s| && !IsSpace(s[i]) then 1 + WordLength(s, i + 1) else 0
  }

  /** The words of `s` from `i` on: its maximal runs of characters that are
      not white space, in order. */
  function WordsFrom(s: string, i: nat): seq<string>
    requires i <= |s|
    decreases |s| - i
  {
    if i == |s| then []
    else if IsSpace(s[i]) then WordsFrom(s, i + 1)
    else
      var n := WordLength(s, i);
      [s[i..i + n]] + WordsFrom(s, i + n)
  }

  function Words(s: string): seq<string> {
    WordsFrom(s, 0)
  }

  /** The words joined by single spaces. */
  function Unwords(ws: seq<string>): string {
    if ws == [] then ""
    else if |ws| == 1 then ws[0]
    else ws[0] + " " + Unwords(ws[1..])
  }

  /** `normalize` keeps exactly the words of the lower-cased text, in order,
      with one space between each two of them. */
  lemma NormalizeSpec(s: string)
    ensures Normalize(s) == Unwords(Words(Lower(s)))
  {
    var t := Lower(s);
    var ws := Words(t);
    CollapseWords(t, 0);
    WordsAreWords(t, 0);
    UnwordsTrimmed(ws);
    Assoc(Lead(t, 0), Unwords(ws), Tail(t, 0));
    assert ReplaceAll(SpaceRun(1), t, " ") == Lead(t, 0) + Unwords(ws) + Tail(t, 0);
    TrimUnique(Lead(t, 0), Unwords(ws), Tail(t, 0));
  }

  /** The space `\s+` leaves for white space at `i`, if there is any there. */
  function Lead(t: string, i: nat): string
    requires i <= |t|
  {
    if i < |t| && IsSpace(t[i]) then " " else ""
  }

  /** The space `\s+` leaves for white space after the last word, if any. */
  function Tail(t: string, i: nat): string
    requires i <= |t|
  {
    if WordsFrom(t, i) != [] && IsSpace(t[|t| - 1]) then " " else ""
  }

  /** Collapsing the white-space runs from `i` on gives the words from `i`
      on, joined by single spaces, with one more space in front and at the
      end where the text has white space there. */
  predicate Collapsed(t: string, i: nat)
    requires i <= |t|
  {
    ReplaceFrom(SpaceRun(1), t, " ", i) == Joined(t, i)
  }

  lemma {:induction false} CollapseWords(t: string, i: nat)
    requires i <= |t|
    ensures Collapsed(t, i)
    decreases |t| - i
  {
    if i < |t| {
      if IsSpace(t[i]) {
        var n := SpaceRunLength(t, i);
        CollapseWords(t, i + n);
        CollapseSpaceStep(t, i, n);
      } else {
        CollapseWords(t, i + 1);
        CollapseWordStep(t, i);
      }
    }
  }

  /** `\s+` matches the whole white-space run at `i`. */
  lemma ReplaceSpaceRun(t: string, i: nat, n: nat)
    requires i < |t| && IsSpace(t[i]) && n == SpaceRunLength(t, i)
    ensures ReplaceFrom(SpaceRun(1), t, " ", i) == " " + ReplaceFrom(SpaceRun(1), t, " ", i + n)
  {
    assert MatchAt(SpaceRun(1), t, i) == Some(n);
  }

  /** `\s+` does not match at a character that is not white space. */
  lemma ReplaceKeepsChar(t: string, i: nat)
    requires i < |t| && !IsSpace(t[i])
    ensures ReplaceFrom(SpaceRun(1), t, " ", i) == [t[i]] + ReplaceFrom(SpaceRun(1), t, " ", i + 1)
  {
    assert SpaceRunLength(t, i) == 0;
    assert MatchAt(SpaceRun(1), t, i) == None;
  }

  /** A white-space run becomes one space in front of what follows it. */
  lemma CollapseSpaceStep(t: string, i: nat, n: nat)
    requires i < |t| && IsSpace(t[i]) && n == SpaceRunLength(t, i)
    requires Collapsed(t, i + n)
    ensures Collapsed(t, i)
  {
    ReplaceSpaceRun(t, i, n);
    SpaceRunJoined(t, i, n);
  }

  /** What the words describe from `i` on is one space in front of what
      they describe after the white-space run at `i`. */
  lemma SpaceRunJoined(t: string, i: nat, n: nat)
    requires i < |t| && IsSpace(t[i]) && n == SpaceRunLength(t, i)
    ensures Joined(t, i) == " " + Joined(t, i + n)
  {
    SkipSpaceRun(t, i, n);
    var j := i + n;
    assert Lead(t, j) == "";
    assert Lead(t, i) == " ";
    assert Tail(t, i) == Tail(t, j);
    assert Body(t, i) == Body(t, j);
    assert Joined(t, j) == Body(t, j);
    assert Joined(t, i) == " " + Body(t, j);
  }

  /** A character of a word is kept in front of what follows it. */
  lemma CollapseWordStep(t: string, i: nat)
    requires i < |t| && !IsSpace(t[i])
    requires Collapsed(t, i + 1)
    ensures Collapsed(t, i)
  {
    ReplaceKeepsChar(t, i);
    if i + 1 == |t| || IsSpace(t[i + 1]) {
      WordEndsAt(t, i);
    } else {
      WordGoesOn(t, i);
    }
  }

  /** The collapsed text from `i` on, as the words describe it. */
  function Joined(t: string, i: nat): string
    requires i <= |t|
  {
    Lead(t, i) + Body(t, i)
  }

  /** The words from `i` on joined by spaces, and the trailing space. */
  function Body(t: string, i: nat): string
    requires i <= |t|
  {
    Unwords(WordsFrom(t, i)) + Tail(t, i)
  }

  /** A word ending right after `i`. */
  lemma WordEndsAt(t: string, i: nat)
    requires i < |t| && !IsSpace(t[i]) && (i + 1 == |t| || IsSpace(t[i + 1]))
    ensures [t[i]] + Joined(t, i + 1) == Joined(t, i)
  {
    var ws := WordsFrom(t, i + 1);
    var c := [t[i]];
    WordsFromShort(t, i);
    UnwordsPrepend(c, ws);
    assert Lead(t, i) == "";
    if i + 1 == |t| {
      assert Tail(t, i) == "";
      assert Body(t, i) == c;
    } else if ws == [] {
      NoWordsAllSpace(t, i + 1);
      assert Tail(t, i) == " " && Joined(t, i + 1) == " ";
      assert Body(t, i) == c + " ";
    } else {
      var u := Unwords(ws);
      var tl := Tail(t, i + 1);
      assert Joined(t, i + 1) == " " + (u + tl);
      assert Tail(t, i) == tl;
      assert Body(t, i) == c + " " + u + tl;
      Regroup(c, " ", u, tl);
    }
  }

  lemma Assoc(a: string, b: string, c: string)
    ensures a + (b + c) == a + b + c
  {
  }

  lemma Regroup(a: string, b: string, c: string, d: string)
    ensures a + (b + (c + d)) == a + b + c + d
  {
  }

  /** A one-character word at `i`. */
  lemma WordsFromShort(t: string, i: nat)
    requires i < |t| && !IsSpace(t[i]) && (i + 1 == |t| || IsSpace(t[i + 1]))
    ensures WordsFrom(t, i) == [[t[i]]] + WordsFrom(t, i + 1)
  {
    assert WordLength(t, i) == 1;
    assert t[i..i + 1] == [t[i]];
  }

  /** Joining one more word in front. */
  lemma UnwordsPrepend(w: string, ws: seq<string>)
    ensures Unwords([w] + ws) == if ws == [] then w else w + " " + Unwords(ws)
  {
    if ws != [] {
      assert ([w] + ws)[1..] == ws;
    }
  }

  /** A word going on after `i`. */
  lemma WordGoesOn(t: string, i: nat)
    requires i + 1 < |t| && !IsSpace(t[i]) && !IsSpace(t[i + 1])
    ensures [t[i]] + Joined(t, i + 1) == Joined(t, i)
  {
    var ws := WordsFrom(t, i + 1);
    WordsFromLonger(t, i);
    assert [ws[0]] + ws[1..] == ws;
    UnwordsCons(t[i], ws[0], ws[1..]);
    assert Lead(t, i) == "" && Lead(t, i + 1) == "";
    var tl := Tail(t, i + 1);
    assert Tail(t, i) == tl;
    assert Body(t, i) == [t[i]] + Unwords(ws) + tl;
  }

  /** The first word from `i + 1` on, with `t[i]` in front, is the first
      word from `i` on, when neither is white space. */
  lemma WordsFromLonger(t: string, i: nat)
    requires i + 1 < |t| && !IsSpace(t[i]) && !IsSpace(t[i + 1])
    ensures WordsFrom(t, i + 1) != []
    ensures WordsFrom(t, i) == [[t[i]] + WordsFrom(t, i + 1)[0]] + WordsFrom(t, i + 1)[1..]
  {
    var w := WordLength(t, i);
    assert w == 1 + WordLength(t, i + 1);
    var rest := WordsFrom(t, i + w);
    var word := t[i + 1..i + w];
    assert t[i..i + w] == [t[i]] + word;
    assert WordsFrom(t, i + 1) == [word] + rest;
  }

  /** One more character in front of the first word is one more character
      in front of the joined words. */
  lemma UnwordsCons(c: char, word: string, rest: seq<string>)
    ensures Unwords([[c] + word] + rest) == [c] + Unwords([word] + rest)
  {
    if rest != [] {
      assert ([[c] + word] + rest)[1..] == rest;
      assert ([word] + rest)[1..] == rest;
    }
  }

  /** A word: non-empty, neither starting nor ending with white space. */
  predicate IsWord(w: string) {
    w != [] && !IsSpace(w[0]) && !IsSpace(w[|w| - 1])
  }

  /** Every word is non-empty and neither starts nor ends with white space. */
  lemma {:induction false} WordsAreWords(s: string, i: nat)
    requires i <= |s|
    ensures forall k :: 0 <= k < |WordsFrom(s, i)| ==> IsWord(WordsFrom(s, i)[k])
    decreases |s| - i
  {
    if i < |s| {
      if IsSpace(s[i]) {
        assert WordsFrom(s, i) == WordsFrom(s, i + 1);
        WordsAreWords(s, i + 1);
      } else {
        var n := WordLength(s, i);
        var word := s[i..i + n];
        assert WordsFrom(s, i) == [word] + WordsFrom(s, i + n);
        assert word[0] == s[i] && word[|word| - 1] == s[i + n - 1];
        assert IsWord(word);
        WordsAreWords(s, i + n);
      }
    }
  }

  /** A run of white space holds no word. */
  lemma {:induction false} SkipSpaceRun(t: string, i: nat, n: nat)
    requires i + n <= |t| && forall k :: i <= k < i + n ==> IsSpace(t[k])
    ensures WordsFrom(t, i) == WordsFrom(t, i + n)
    decreases n
  {
    if n > 0 {
      SkipSpaceRun(t, i + 1, n - 1);
    }
  }

  /** Without words from `i` on, everything from `i` on is white space. */
  lemma {:induction false} NoWordsAllSpace(t: string, i: nat)
    requires i <= |t| && WordsFrom(t, i) == []
    ensures forall k :: i <= k < |t| ==> IsSpace(t[k])
    decreases |t| - i
  {
    if i < |t| {
      NoWordsAllSpace(t, i + 1);
    }
  }

  /** Words joined by spaces neither start nor end with white space, and
      are empty only without words. */
  lemma {:induction false} UnwordsTrimmed(ws: seq<string>)
    requires forall k :: 0 <= k < |ws| ==> IsWord(ws[k])
    ensures Trimmed(Unwords(ws))
    ensures Unwords(ws) == [] <==> ws == []
  {
    if |ws| > 1 {
      UnwordsTrimmed(ws[1..]);
      var r := Unwords(ws[1..]);
      assert (ws[0] + " " + r)[0] == ws[0][0];
      assert (ws[0] + " " + r)[|ws[0]| + 1 + |r| - 1] == r[|r| - 1];
    }
  }

  // ---------------------------------------------------------------------
  // stripTagsKeepBreaks

  /** One global replacement `s.replace(/pattern/g, rep)`. */
  datatype Rule = Rule(pattern: Pattern, rep: string)

  /** The replacements from the `j`-th on, applied one after the other. */
  function ApplyRules(rules: seq<Rule>, s: string, j: nat): string
    requires j <= |rules|
    decreases |rules| - j
  {
    if j == |rules| then s
    else ApplyRules(rules, ReplaceAll(rules[j].pattern, s, rules[j].rep), j + 1)
  }

  /** The first five replacements of `stripTagsKeepBreaks`: block boundaries
      become line feeds, `form`, `script` and `style` elements and then all
      remaining tags become spaces. */
  const TagRules: seq<Rule> := [
    Rule(BreakTag, "\n"), Rule(Element(["form"]), " "), Rule(Element(["script"]), " "),
    Rule(Element(["style"]), " "), Rule(AnyTag, " ")]

  /** The text after the first six replacements of `stripTagsKeepBreaks`:
      the tag rules, then each run of two or more white-space characters
      becomes one space. */
  function CollapsedText(s: string): (r: string)
    ensures NoDoubleSpace(r)
  {
    var t5 := ApplyRules(TagRules, s, 0);
    CollapseShape(t5, 2, 0);
    ReplaceAll(SpaceRun(2), t5, " ")
  }

  /** `stripTagsKeepBreaks`: the result never starts or ends with white space
      and never holds two white-space characters in a row. */
  function StripTagsKeepBreaks(s: string): (r: string)
    ensures Trimmed(r) && NoDoubleSpace(r)
  {
    var t6 := CollapsedText(s);
    var t7 := ReplaceAll(NewlineRun(3), t6, "\n\n");
    NewlineRuleIsNoOp(s);
    TrimKeepsNoDoubleSpace(t7);
    Trim(t7)
  }

  /** Text without two neighbouring white-space characters has no run of
      three line feeds, so `\n{3,}` replacement changes nothing. */
  lemma {:induction false} NewlineRunAbsent(t: string, i: nat)
    requires i <= |t| && NoDoubleSpace(t)
    ensures ReplaceFrom(NewlineRun(3), t, "\n\n", i) == t[i..]
    decreases |t| - i
  {
    if i < |t| {
      var n := NewlineRunLength(t, i);
      assert i + 1 < |t| ==> !SpacePairAt(t, i);
      assert n <= 1;
      assert MatchAt(NewlineRun(3), t, i) == None;
      NewlineRunAbsent(t, i + 1);
      assert t[i..] == [t[i]] + t[i + 1..];
    }
  }

  /** The `\n{3,}` rule of `stripTagsKeepBreaks` runs after the `\s{2,}`
      collapse and so never changes anything. */
  lemma NewlineRuleIsNoOp(s: string)
    ensures ReplaceAll(NewlineRun(3), CollapsedText(s), "\n\n") == CollapsedText(s)
  {
    NewlineRunAbsent(CollapsedText(s), 0);
  }

  // ---------------------------------------------------------------------
  // No tag survives stripTagsKeepBreaks

  /** No match of `<[^>]+>` starts anywhere in `r`: each `<` that has a `>`
      somewhere after it is directly followed by `>`. */
  predicate NoTag(r: string) {
    r == [] || ((r[0] == '<' && '>' in r[1..] ==> r[1] == '>') && NoTag(r[1..]))
  }

  /** Each `<` of a text without tags is followed by `>` at once, or by no
      `>` at all. */
  lemma {:induction false} NoTagAt(r: string, k: nat)
    requires NoTag(r) && k < |r| && r[k] == '<'
    ensures (k + 1 < |r| && r[k + 1] == '>') || forall l :: k < l < |r| ==> r[l] != '>'
  {
    if k > 0 {
      NoTagAt(r[1..], k - 1);
    } else if k + 1 >= |r| || r[1] != '>' {
      assert '>' !in r[1..];
      forall l | 0 < l < |r| ensures r[l] != '>' {
        assert r[l] == r[1..][l - 1];
      }
    }
  }

  /** A text without tags gives `<[^>]+>` no match at any position. */
  lemma NoTagNoMatch(r: string)
    requires NoTag(r)
    ensures forall k :: 0 <= k < |r| ==> MatchAt(AnyTag, r, k) == None
  {
    forall k | 0 <= k < |r| && r[k] == '<' ensures MatchAt(AnyTag, r, k) == None {
      NoTagAt(r, k);
    }
  }

  /** Dropping characters in front keeps a text free of tags. */
  lemma {:induction false} NoTagDrop(t: string, i: nat, j: nat)
    requires i <= j <= |t| && NoTag(t[i..])
    ensures NoTag(t[j..])
    decreases j - i
  {
    if i < j {
      assert t[i..][1..] == t[i + 1..];
      NoTagDrop(t, i + 1, j);
    }
  }

  /** A prefix of a text without tags has none. */
  lemma {:induction false} NoTagPrefix(r: string, n: nat)
    requires NoTag(r) && n <= |r|
    ensures NoTag(r[..n])
  {
    if n > 0 {
      NoTagPrefix(r[1..], n - 1);
      var p := r[..n];
      assert p[1..] == r[1..][..n - 1];
      if p[0] == '<' && '>' in p[1..] {
        var l :| 0 <= l < |p[1..]| && p[1..][l] == '>';
        assert r[1..][l] == '>';
      }
    }
  }

  /** One step of the global replacement: the text at `i` is either the
      replacement of a match or the character kept there. */
  lemma ReplaceStep(p: Pattern, s: string, rep: string, i: nat) returns (j: nat, head: string)
    requires i < |s|
    ensures i < j <= |s| && ReplaceFrom(p, s, rep, i) == head + ReplaceFrom(p, s, rep, j)
    ensures head == rep || (head == [s[i]] && j == i + 1)
  {
    var r := MatchAt(p, s, i);
    if r.Some? {
      ReplaceAtMatch(p, s, rep, i, r.value);
      j, head := i + r.value, rep;
    } else {
      ReplaceAtNoMatch(p, s, rep, i);
      j, head := i + 1, [s[i]];
    }
  }

  /** A match at `i` is replaced by `rep`. */
  lemma ReplaceAtMatch(p: Pattern, s: string, rep: string, i: nat, n: nat)
    requires i < |s| && MatchAt(p, s, i) == Some(n)
    ensures ReplaceFrom(p, s, rep, i) == rep + ReplaceFrom(p, s, rep, i + n)
  {
  }

  /** Where no match starts the character is kept. */
  lemma ReplaceAtNoMatch(p: Pattern, s: string, rep: string, i: nat)
    requires i < |s| && MatchAt(p, s, i) == None
    ensures ReplaceFrom(p, s, rep, i) == [s[i]] + ReplaceFrom(p, s, rep, i + 1)
  {
  }

  /** Replacing with text that holds no `>` adds no `>`. */
  lemma {:induction false} ReplaceAddsNoClose(p: Pattern, s: string, rep: string, i: nat)
    requires i <= |s| && '>' !in rep
    requires forall k :: i <= k < |s| ==> s[k] != '>'
    ensures '>' !in ReplaceFrom(p, s, rep, i)
    decreases |s| - i
  {
    if i < |s| {
      var j, head := ReplaceStep(p, s, rep, i);
      ReplaceAddsNoClose(p, s, rep, j);
    }
  }

  /** A `>` at which no match starts is kept as the first character. */
  lemma ReplaceKeepsClose(p: Pattern, s: string, rep: string, i: nat)
    requires i < |s| && s[i] == '>' && MatchAt(p, s, i) == None
    ensures ReplaceFrom(p, s, rep, i) != [] && ReplaceFrom(p, s, rep, i)[0] == '>'
  {
    assert ReplaceFrom(p, s, rep, i) == [s[i]] + ReplaceFrom(p, s, rep, i + 1);
  }

  /** A character put in front of a text without tags makes none, unless
      it is a `<` that the text closes later but not at once. */
  lemma ConsNoTag(c: char, rest: string)
    requires NoTag(rest)
    requires c == '<' && '>' in rest ==> rest[0] == '>'
    ensures NoTag([c] + rest)
  {
    assert ([c] + rest)[1..] == rest;
  }

  /** After `replace(/<[^>]+>/g, " ")` no tag is left. */
  lemma {:induction false} AnyTagGone(s: string, i: nat)
    requires i <= |s|
    ensures NoTag(ReplaceFrom(AnyTag, s, " ", i))
    decreases |s| - i, 1
  {
    if i < |s| {
      match MatchAt(AnyTag, s, i)
      case Some(n) => AnyTagReplaced(s, i, n);
      case None => AnyTagKept(s, i);
    }
  }

  /** `AnyTagGone` where a tag starts. */
  lemma {:induction false} AnyTagReplaced(s: string, i: nat, n: nat)
    requires i < |s| && MatchAt(AnyTag, s, i) == Some(n)
    ensures NoTag(ReplaceFrom(AnyTag, s, " ", i))
    decreases |s| - i, 0
  {
    var rest := ReplaceFrom(AnyTag, s, " ", i + n);
    AnyTagGone(s, i + n);
    assert ReplaceFrom(AnyTag, s, " ", i) == [' '] + rest;
    ConsNoTag(' ', rest);
  }

  /** `AnyTagGone` where no tag starts: a `<` there is followed by `>` or
      by no `>` at all. */
  lemma {:induction false} AnyTagKept(s: string, i: nat)
    requires i < |s| && MatchAt(AnyTag, s, i) == None
    ensures NoTag(ReplaceFrom(AnyTag, s, " ", i))
    decreases |s| - i, 0
  {
    var rest := ReplaceFrom(AnyTag, s, " ", i + 1);
    AnyTagGone(s, i + 1);
    assert ReplaceFrom(AnyTag, s, " ", i) == [s[i]] + rest;
    if s[i] == '<' && i + 1 < |s| {
      if s[i + 1] == '>' {
        ReplaceKeepsClose(AnyTag, s, " ", i + 1);
      } else {
        assert IndexOfChar(s, '>', i + 2) < 0;
        ReplaceAddsNoClose(AnyTag, s, " ", i + 1);
      }
    }
    ConsNoTag(s[i], rest);
  }

  /** A run of white space never starts at `>`. */
  lemma SpaceRunNotAtClose(m: nat, t: string, k: nat)
    requires k < |t| && t[k] == '>'
    ensures MatchAt(SpaceRun(m), t, k) == None
  {
    assert !IsSpace(t[k]);
  }

  /** Collapsing white-space runs into one space makes no tag: a kept `<`
      that the text closes later is already followed by `>`, which stays
      next to it. */
  lemma {:induction false} CollapseNoTag(m: nat, t: string, i: nat)
    requires i <= |t| && NoTag(t[i..])
    ensures NoTag(ReplaceFrom(SpaceRun(m), t, " ", i))
    decreases |t| - i
  {
    if i < |t| {
      var j, head := ReplaceStep(SpaceRun(m), t, " ", i);
      NoTagDrop(t, i, j);
      var rest := ReplaceFrom(SpaceRun(m), t, " ", j);
      CollapseNoTag(m, t, j);
      if head == " " {
        ConsNoTag(' ', rest);
      } else {
        CollapseKeptNoTag(m, t, i, rest);
      }
    }
  }

  /** `CollapseNoTag` where the character at `i` is kept. */
  lemma CollapseKeptNoTag(m: nat, t: string, i: nat, rest: string)
    requires i < |t| && NoTag(t[i..]) && NoTag(rest)
    requires rest == ReplaceFrom(SpaceRun(m), t, " ", i + 1)
    ensures NoTag([t[i]] + rest)
  {
    var u := t[i..];
    assert u[1..] == t[i + 1..];
    if t[i] == '<' {
      if exists k :: i + 1 <= k < |t| && t[k] == '>' {
        var k :| i + 1 <= k < |t| && t[k] == '>';
        assert u[1..][k - i - 1] == '>';
        assert u[1] == '>';
        SpaceRunNotAtClose(m, t, i + 1);
        ReplaceKeepsClose(SpaceRun(m), t, " ", i + 1);
      } else {
        ReplaceAddsNoClose(SpaceRun(m), t, " ", i + 1);
      }
    }
    ConsNoTag(t[i], rest);
  }

  /** The rules applied from the `j`-th on end with the last one. */
  lemma {:induction false} ApplyRulesLast(rules: seq<Rule>, s: string, j: nat) returns (u: string)
    requires j < |rules|
    ensures ApplyRules(rules, s, j) == ReplaceAll(rules[|rules| - 1].pattern, u, rules[|rules| - 1].rep)
    decreases |rules| - j
  {
    var next := ReplaceAll(rules[j].pattern, s, rules[j].rep);
    if j + 1 == |rules| {
      u := s;
    } else {
      u := ApplyRulesLast(rules, next, j + 1);
    }
  }

  /** The tag rules leave no tag: the last of them removes every one. */
  lemma TagRulesNoTag(s: string)
    ensures NoTag(ApplyRules(TagRules, s, 0))
  {
    var u := ApplyRulesLast(TagRules, s, 0);
    assert TagRules[|TagRules| - 1] == Rule(AnyTag, " ");
    AnyTagGone(u, 0);
  }

  /** Collapsing white space after the tag rules makes no tag. */
  lemma CollapsedNoTag(s: string)
    ensures NoTag(CollapsedText(s))
  {
    var t5 := ApplyRules(TagRules, s, 0);
    TagRulesNoTag(s);
    assert t5[0..] == t5;
    CollapseNoTag(2, t5, 0);
  }

  /** Trimming a text without tags leaves none. */
  lemma TrimNoTag(t: string)
    requires NoTag(t)
    ensures NoTag(Trim(t))
  {
    TrimSpec(t);
    var a, b :| 0 <= a <= b <= |t| && Trim(t) == t[a..b];
    assert t[0..] == t;
    NoTagDrop(t, 0, a);
    NoTagPrefix(t[a..], b - a);
    assert t[a..][..b - a] == t[a..b];
  }

  /** No match of `<[^>]+>` is left in the output of `stripTagsKeepBreaks`:
      every `<` in it is followed by `>` at once or by no `>` at all. A `<>`
      or an unclosed `<` in the input is not a match, and survives. */
  lemma StripTagsLeavesNoTag(s: string)
    ensures NoTag(StripTagsKeepBreaks(s))
    ensures var r := StripTagsKeepBreaks(s);
      forall k :: 0 <= k < |r| ==> MatchAt(AnyTag, r, k) == None
  {
    CollapsedNoTag(s);
    NewlineRuleIsNoOp(s);
    TrimNoTag(CollapsedText(s));
    NoTagNoMatch(StripTagsKeepBreaks(s));
  }

  // ---------------------------------------------------------------------
  // Which text stripTagsKeepBreaks keeps

  /** Where no match starts between `i` and `j`, the replacement copies that
      stretch of the text. */
  lemma {:induction false} ReplaceCopies(p: Pattern, s: string, rep: string, i: nat, j: nat)
    requires i <= j <= |s|
    requires forall k :: i <= k < j ==> MatchAt(p, s, k) == None
    ensures ReplaceFrom(p, s, rep, i) == s[i..j] + ReplaceFrom(p, s, rep, j)
    decreases j - i
  {
    if i < j {
      ReplaceAtNoMatch(p, s, rep, i);
      ReplaceCopies(p, s, rep, i + 1, j);
      assert s[i..j] == [s[i]] + s[i + 1..j];
      Assoc([s[i]], s[i + 1..j], ReplaceFrom(p, s, rep, j));
    }
  }

  /** Text in which no match starts is kept as it is. */
  lemma ReplaceKeeps(p: Pattern, s: string, rep: string)
    requires forall k :: 0 <= k < |s| ==> MatchAt(p, s, k) == None
    ensures ReplaceAll(p, s, rep) == s
  {
    ReplaceCopies(p, s, rep, 0, |s|);
    assert s[0..|s|] == s;
  }

  /** The patterns that can match only where a `<` is. */
  predicate IsTagPattern(p: Pattern) {
    p.BreakTag? || p.Element? || p.AnyTag?
  }

  /** Only `<` lower-cases to `<`. */
  lemma LowerNotLt(c: char)
    requires c != '<'
    ensures LowerChar(c) != '<'
  {
  }

  /** An element match starts with `<`. */
  lemma {:induction false} ElementNeedsLt(s: string, i: nat, names: seq<string>, j: nat)
    requires i < |s| && j <= |names| && s[i] != '<'
    ensures MatchElement(s, i, names, j) == None
    decreases |names| - j
  {
    if j < |names| {
      var open := "<" + names[j];
      LowerNotLt(s[i]);
      assert !OccursAtCI(s, i, open) by {
        assert open[0] == '<';
        assert s[i + 0] == s[i];
      }
      ElementNeedsLt(s, i, names, j + 1);
    }
  }

  /** The tag patterns match nowhere but at a `<`. */
  lemma TagNeedsLt(p: Pattern, s: string, k: nat)
    requires IsTagPattern(p) && k < |s| && s[k] != '<'
    ensures MatchAt(p, s, k) == None
  {
    if p.Element? {
      ElementNeedsLt(s, k, p.names, 0);
    }
  }

  /** Tag rules leave text without `<` as it is. */
  lemma {:induction false} TagRulesKeep(rules: seq<Rule>, s: string, j: nat)
    requires j <= |rules| && '<' !in s
    requires forall k :: j <= k < |rules| ==> IsTagPattern(rules[k].pattern)
    ensures ApplyRules(rules, s, j) == s
    decreases |rules| - j
  {
    if j < |rules| {
      forall k | 0 <= k < |s| ensures MatchAt(rules[j].pattern, s, k) == None {
        assert s[k] in s;
        TagNeedsLt(rules[j].pattern, s, k);
      }
      ReplaceKeeps(rules[j].pattern, s, rules[j].rep);
      TagRulesKeep(rules, s, j + 1);
    }
  }

  /** `\s{2,}` matches nowhere but at two adjacent white-space characters. */
  lemma NoSpacePairNoRun(s: string, k: nat)
    requires k < |s| && (k + 1 < |s| ==> !SpacePairAt(s, k))
    ensures MatchAt(SpaceRun(2), s, k) == None
  {
  }

  /** The `\s{2,}` rule leaves text without two adjacent white-space
      characters as it is. */
  lemma CollapseKeeps(s: string)
    requires NoDoubleSpace(s)
    ensures ReplaceAll(SpaceRun(2), s, " ") == s
  {
    forall k | 0 <= k < |s| ensures MatchAt(SpaceRun(2), s, k) == None {
      NoSpacePairNoRun(s, k);
    }
    ReplaceKeeps(SpaceRun(2), s, " ");
  }

  /** Text without `<`, without two adjacent white-space characters and
      without white space at either end comes out of `stripTagsKeepBreaks`
      unchanged. */
  lemma StripTagsKeepsPlain(s: string)
    requires '<' !in s && NoDoubleSpace(s) && Trimmed(s)
    ensures StripTagsKeepBreaks(s) == s
  {
    TagRulesKeep(TagRules, s, 0);
    CollapseKeeps(s);
    NewlineRuleIsNoOp(s);
    TrimOfTrimmed(s);
  }

  /** When the break-tag rule leaves no `<`, the other tag rules change
      nothing and only the `\s{2,}` rule and the trim remain. */
  lemma StripAfterBreaks(x: string, y: string)
    requires ReplaceAll(BreakTag, x, "\n") == y && '<' !in y
    ensures StripTagsKeepBreaks(x) == Trim(ReplaceAll(SpaceRun(2), y, " "))
  {
    assert TagRules[0] == Rule(BreakTag, "\n");
    assert ApplyRules(TagRules, x, 0) == ApplyRules(TagRules, y, 1);
    TagRulesKeep(TagRules, y, 1);
    NewlineRuleIsNoOp(x);
  }

  /** Positions of text without `<` where no tag pattern matches. */
  lemma TagsMissStretch(p: Pattern, x: string, a: string, d: nat)
    requires IsTagPattern(p) && '<' !in a && d + |a| <= |x| && x[d..d + |a|] == a
    ensures forall k :: d <= k < d + |a| ==> MatchAt(p, x, k) == None
  {
    forall k | d <= k < d + |a| ensures MatchAt(p, x, k) == None {
      assert x[k] == a[k - d];
      assert a[k - d] in a;
      TagNeedsLt(p, x, k);
    }
  }

  /** A tag rule copies a stretch without `<`. */
  lemma TagRuleCopies(p: Pattern, x: string, rep: string, a: string, d: nat)
    requires IsTagPattern(p) && '<' !in a && d + |a| <= |x| && x[d..d + |a|] == a
    ensures ReplaceFrom(p, x, rep, d) == a + ReplaceFrom(p, x, rep, d + |a|)
  {
    TagsMissStretch(p, x, a, d);
    ReplaceCopies(p, x, rep, d, d + |a|);
  }

  /** Joining texts without `<` gives a text without `<`. */
  lemma JoinNoLt(a: string, m: string, b: string)
    requires '<' !in a && '<' !in m && '<' !in b
    ensures '<' !in a + m + b
  {
  }

  /** Two texts without white space at their ends, joined by anything, have
      none at the ends of the whole. */
  lemma JoinTrimmed(a: string, m: string, b: string)
    requires a != [] && b != [] && Trimmed(a) && Trimmed(b)
    ensures Trimmed(a + m + b)
  {
    var y := a + m + b;
    assert y[0] == a[0];
    assert y[|y| - 1] == b[|b| - 1];
  }

  /** A plain text, one character, and another plain text: no two adjacent
      white-space characters when the texts have none and the character
      sits between two that are not white space. */
  lemma JoinNoDoubleSpace(a: string, c: char, b: string)
    requires NoDoubleSpace(a) && NoDoubleSpace(b)
    requires a != [] && !IsSpace(a[|a| - 1]) && b != [] && !IsSpace(b[0])
    ensures NoDoubleSpace(a + [c] + b)
  {
    var y := a + [c] + b;
    forall k | 0 <= k < |y| - 1 ensures !SpacePairAt(y, k) {
      if k + 1 < |a| {
        assert !SpacePairAt(a, k);
      } else if k + 1 == |a| {
        assert y[k] == a[|a| - 1];
      } else if k == |a| {
        assert y[k + 1] == b[0];
      } else {
        assert !SpacePairAt(b, k - |a| - 1);
      }
    }
  }

  /** A case-insensitive occurrence starts with its first character. */
  lemma OccursAtCIFirst(s: string, i: nat, p: string)
    requires |p| > 0
    ensures OccursAtCI(s, i, p) ==> i < |s| && LowerChar(s[i]) == p[0]
  {
    if OccursAtCI(s, i, p) {
      assert s[i + 0] == s[i];
    }
  }

  /** `<br>` is a match of the break-tag pattern, four characters long. */
  lemma BrIsBreakTag(x: string, i: nat)
    requires i + 4 <= |x| && x[i..i + 4] == "<br>"
    ensures MatchAt(BreakTag, x, i) == Some(4)
  {
    var j := i + 1;
    assert x[i] == '<' && x[j] == 'b' && x[j + 1] == 'r' && x[j + 2] == '>';
    OccursAtCIFirst(x, j, "p");
    OccursAtCIFirst(x, j, "li");
    assert OccursAtCI(x, j, "br");
    assert BreakNameLength(x, j) == 2;
    assert IndexOfChar(x, '>', j + 2) == j + 2;
  }

  /** The break-tag rule turns a `<br>` between texts without `<` into a
      line feed and keeps the texts. */
  lemma BreakRuleOnBr(a: string, b: string)
    requires '<' !in a && '<' !in b
    ensures ReplaceAll(BreakTag, a + "<br>" + b, "\n") == a + "\n" + b
  {
    var x := a + "<br>" + b;
    assert x[0..|a|] == a;
    assert x[|a|..|a| + 4] == "<br>";
    assert x[|a| + 4..|x|] == b;
    TagRuleCopies(BreakTag, x, "\n", a, 0);
    BrIsBreakTag(x, |a|);
    ReplaceAtMatch(BreakTag, x, "\n", |a|, 4);
    TagRuleCopies(BreakTag, x, "\n", b, |a| + 4);
  }

  /** A `<br>` between two plain texts becomes a line feed: the semantic
      line break is preserved. */
  lemma StripTagsBreak(a: string, b: string)
    requires a != [] && b != [] && Trimmed(a) && Trimmed(b)
    requires '<' !in a && '<' !in b && NoDoubleSpace(a) && NoDoubleSpace(b)
    ensures StripTagsKeepBreaks(a + "<br>" + b) == a + "\n" + b
  {
    var y := a + "\n" + b;
    BreakRuleOnBr(a, b);
    JoinNoLt(a, "\n", b);
    StripAfterBreaks(a + "<br>" + b, y);
    JoinNoDoubleSpace(a, '\n', b);
    CollapseKeeps(y);
    JoinTrimmed(a, "\n", b);
    TrimOfTrimmed(y);
  }

  /** `</p>` is a match of the break-tag pattern, four characters long. */
  lemma ClosePIsBreakTag(x: string, i: nat)
    requires i + 4 <= |x| && x[i..i + 4] == "</p>"
    ensures MatchAt(BreakTag, x, i) == Some(4)
  {
    var j := i + 2;
    assert x[i] == '<' && x[i + 1] == '/' && x[j] == 'p' && x[j + 1] == '>';
    assert OccursAtCI(x, j, "p");
    assert BreakNameLength(x, j) == 1;
    assert IndexOfChar(x, '>', j + 1) == j + 1;
  }

  /** `<p>` is a match of the break-tag pattern, three characters long. */
  lemma OpenPIsBreakTag(x: string, i: nat)
    requires i + 3 <= |x| && x[i..i + 3] == "<p>"
    ensures MatchAt(BreakTag, x, i) == Some(3)
  {
    var j := i + 1;
    assert x[i] == '<' && x[j] == 'p' && x[j + 1] == '>';
    assert OccursAtCI(x, j, "p");
    assert BreakNameLength(x, j) == 1;
    assert IndexOfChar(x, '>', j + 1) == j + 1;
  }

  /** The break-tag rule turns a `</p><p>` between texts without `<` into
      two line feeds and keeps the texts. */
  lemma BreakRuleOnBlockPair(a: string, b: string)
    requires '<' !in a && '<' !in b
    ensures ReplaceAll(BreakTag, a + "</p><p>" + b, "\n") == a + "\n\n" + b
  {
    var x := a + "</p><p>" + b;
    assert x[0..|a|] == a;
    assert x[|a|..|a| + 4] == "</p>";
    assert x[|a| + 4..|a| + 7] == "<p>";
    assert x[|a| + 7..|x|] == b;
    TagRuleCopies(BreakTag, x, "\n", a, 0);
    ClosePIsBreakTag(x, |a|);
    ReplaceAtMatch(BreakTag, x, "\n", |a|, 4);
    OpenPIsBreakTag(x, |a| + 4);
    ReplaceAtMatch(BreakTag, x, "\n", |a| + 4, 3);
    TagRuleCopies(BreakTag, x, "\n", b, |a| + 7);
  }

  /** Positions of a stretch without two adjacent white-space characters
      where `\s{2,}` does not match: the stretch ends the text or ends in a
      character that is not white space. */
  lemma SpaceRunMissStretch(y: string, a: string, d: nat)
    requires d + |a| <= |y| && y[d..d + |a|] == a && NoDoubleSpace(a)
    requires d + |a| < |y| ==> a != [] && !IsSpace(a[|a| - 1])
    ensures forall k :: d <= k < d + |a| ==> MatchAt(SpaceRun(2), y, k) == None
  {
    forall k | d <= k < d + |a| ensures MatchAt(SpaceRun(2), y, k) == None {
      assert y[k] == a[k - d];
      if k + 1 < d + |a| {
        assert !SpacePairAt(a, k - d);
        assert y[k + 1] == a[k + 1 - d];
      }
      NoSpacePairNoRun(y, k);
    }
  }

  /** The `\s{2,}` rule turns the two line feeds between two plain texts
      into one space. */
  lemma CollapseBlankLine(a: string, b: string)
    requires NoDoubleSpace(a) && NoDoubleSpace(b)
    requires a != [] && !IsSpace(a[|a| - 1]) && b != [] && !IsSpace(b[0])
    ensures ReplaceAll(SpaceRun(2), a + "\n\n" + b, " ") == a + " " + b
  {
    var y := a + "\n\n" + b;
    BlankLineHead(y, a, b);
    BlankLineRun(y, a, b);
    BlankLineTail(y, a, b);
  }

  /** `CollapseBlankLine` before the line feeds: the first text is copied. */
  lemma BlankLineHead(y: string, a: string, b: string)
    requires y == a + "\n\n" + b && NoDoubleSpace(a) && a != [] && !IsSpace(a[|a| - 1])
    ensures ReplaceFrom(SpaceRun(2), y, " ", 0) == a + ReplaceFrom(SpaceRun(2), y, " ", |a|)
  {
    assert y[0..|a|] == a;
    SpaceRunMissStretch(y, a, 0);
    ReplaceCopies(SpaceRun(2), y, " ", 0, |a|);
  }

  /** `CollapseBlankLine` at the line feeds: the run of two becomes a space. */
  lemma BlankLineRun(y: string, a: string, b: string)
    requires y == a + "\n\n" + b && b != [] && !IsSpace(b[0])
    ensures ReplaceFrom(SpaceRun(2), y, " ", |a|) == " " + ReplaceFrom(SpaceRun(2), y, " ", |a| + 2)
  {
    assert y[|a|] == '\n' && y[|a| + 1] == '\n' && y[|a| + 2] == b[0];
    assert SpaceRunLength(y, |a|) == 2;
    ReplaceAtMatch(SpaceRun(2), y, " ", |a|, 2);
  }

  /** `CollapseBlankLine` after the line feeds: the second text is copied. */
  lemma BlankLineTail(y: string, a: string, b: string)
    requires y == a + "\n\n" + b && NoDoubleSpace(b)
    ensures ReplaceFrom(SpaceRun(2), y, " ", |a| + 2) == b
  {
    var d := |a| + 2;
    assert y[d..d + |b|] == b;
    SpaceRunMissStretch(y, b, d);
    ReplaceCopies(SpaceRun(2), y, " ", d, |y|);
    assert y[d..|y|] == b;
  }

  /** Two adjacent block tags between two plain texts end up as one space,
      not as a line feed: the `\s{2,}` rule runs after the break-tag rule and
      also takes the two line feeds it made. */
  lemma StripTagsBlockPair(a: string, b: string)
    requires a != [] && b != [] && Trimmed(a) && Trimmed(b)
    requires '<' !in a && '<' !in b && NoDoubleSpace(a) && NoDoubleSpace(b)
    ensures StripTagsKeepBreaks(a + "</p><p>" + b) == a + " " + b
  {
    var y := a + "\n\n" + b;
    BreakRuleOnBlockPair(a, b);
    JoinNoLt(a, "\n\n", b);
    StripAfterBreaks(a + "</p><p>" + b, y);
    CollapseBlankLine(a, b);
    JoinTrimmed(a, " ", b);
    TrimOfTrimmed(a + " " + b);
  }
}
