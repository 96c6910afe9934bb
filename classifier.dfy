/** `find_phone_pattern_in_query` of analyze_phone_pii.py and the two fixed
    pattern lists it searches, `PHONE_PATTERNS` and `PHONE_TABLES`. Each regex
    is modelled by hand as the search Python's backtracking engine performs:
    positions are tried left to right, and at each position the alternatives
    are tried in the engine's priority order. */
module Classifier {
  import opened Text

  /** The first index `k` in `i..hi` at which `attempt` succeeds, with what it found
      there. This is both `re.search` (positions tried left to right) and the
      `for ... in PATTERNS: if match: return` loops (entries tried in list order). */
  datatype Found<T> = Found(at: nat, value: T)

  function FirstSome<T>(attempt: nat -> Option<T>, i: nat, hi: nat): (r: Option<Found<T>>)
    requires i <= hi
    ensures r.Some? ==> i <= r.value.at < hi && attempt(r.value.at) == Some(r.value.value)
    ensures r.Some? ==> forall k :: i <= k < r.value.at ==> attempt(k).None?
    ensures r.None? ==> forall k :: i <= k < hi ==> attempt(k).None?
    decreases hi - i
  {
    if i == hi then None
    else match attempt(i)
      case Some(v) => Some(Found(i, v))
      case None => FirstSome(attempt, i + 1, hi)
  }

  /** The largest `k` in `lo..hi` where `attempt` succeeds, trying `hi` first and
      counting down: a greedy run that gives back one character at a time until the
      rest of the regex matches. */
  function LastSome<T>(attempt: nat -> Option<T>, lo: nat, hi: nat): (r: Option<Found<T>>)
    requires lo <= hi
    ensures r.Some? ==> lo <= r.value.at <= hi && attempt(r.value.at) == Some(r.value.value)
    ensures r.Some? ==> forall k :: r.value.at < k <= hi ==> attempt(k).None?
    ensures r.None? ==> forall k :: lo <= k <= hi ==> attempt(k).None?
    decreases hi - lo
  {
    match attempt(hi)
    case Some(v) => Some(Found(hi, v))
    case None => if hi == lo then None else LastSome(attempt, lo, hi - 1)
  }

  // ---------------------------------------------------------------------------
  // PHONE_PATTERNS: the column-name patterns
  // ---------------------------------------------------------------------------

  /** An entry of `PHONE_PATTERNS`: `\b<token>\b`, or `\b<token>(?:_\w+)?\b`. */
  datatype ColumnPattern =
    | Word(token: string)
    | WordOrSuffixed(token: string)

  const PhonePatterns: seq<ColumnPattern> := [
    WordOrSuffixed("to_contact"),
    Word("phone"),
    Word("mobile"),
    Word("cell"),
    Word("tel"),
    Word("contact_number"),
    Word("phone_number"),
    Word("handphone"),
    Word("hp_number"),
    Word("telephone"),
    Word("telephone_number"),
    Word("contact_phone"),
    Word("customer_phone"),
    Word("recipient_phone"),
    Word("sender_phone"),
    Word("phone_no"),
    Word("mobile_no"),
    Word("phone_num"),
    Word("mobile_num")
  ]

  /** The pattern guarding every query: `\bselect\b`. */
  const SelectWord: ColumnPattern := Word("select")

  /** The column pattern tried at position `i`: the end of the match, if one starts there.
      In `(?:_\w+)?` the group is tried first and `\w+` is greedy, so it takes the
      rest of the word, after which the final `\b` always holds; only when the group
      cannot start does the engine try `\b` straight after the token. */
  function ColumnMatchEnd(s: string, p: ColumnPattern, i: nat): (r: Option<nat>)
    ensures r.Some? ==> i + |p.token| <= r.value <= |s|
  {
    if !(Boundary(s, i) && CiAt(s, i, p.token)) then None
    else
      var k := i + |p.token|;
      match p
      case Word(_) =>
        if Boundary(s, k) then Some(k) else None
      case WordOrSuffixed(_) =>
        if k + 1 < |s| && s[k] == '_' && IsWordChar(s[k + 1]) then Some(RunEnd(s, k + 1, IsWordChar))
        else if Boundary(s, k) then Some(k)
        else None
  }

  /** `re.search(pattern, s, re.IGNORECASE)` for a column pattern: the leftmost match,
      as its start (`at`) and its end (`value`). */
  function ColumnSearch(s: string, p: ColumnPattern): (r: Option<Found<nat>>)
    ensures r.Some? ==> r.value.at <= |s| && ColumnMatchEnd(s, p, r.value.at) == Some(r.value.value)
    ensures r.Some? ==> forall k :: 0 <= k < r.value.at ==> ColumnMatchEnd(s, p, k).None?
    ensures r.None? ==> forall k :: 0 <= k <= |s| ==> ColumnMatchEnd(s, p, k).None?
  {
    var attempt := (k: nat) => ColumnMatchEnd(s, p, k);
    var r := FirstSome(attempt, 0, |s| + 1);
    assert forall k: nat :: attempt(k) == ColumnMatchEnd(s, p, k);
    r
  }

  /** The loop over `PHONE_PATTERNS`: the first entry (`at`) that matches anywhere
      in `s`, with its leftmost match (`value`). */
  function ColumnStage(s: string): (r: Option<Found<Found<nat>>>)
    ensures r.Some? ==> r.value.at < |PhonePatterns| && ColumnSearch(s, PhonePatterns[r.value.at]) == Some(r.value.value)
    ensures r.Some? ==> forall j :: 0 <= j < r.value.at ==> ColumnSearch(s, PhonePatterns[j]).None?
    ensures r.None? ==> forall j :: 0 <= j < |PhonePatterns| ==> ColumnSearch(s, PhonePatterns[j]).None?
  {
    var attempt := (j: nat) => if j < |PhonePatterns| then ColumnSearch(s, PhonePatterns[j]) else None;
    var r := FirstSome(attempt, 0, |PhonePatterns|);
    assert forall j: nat :: j < |PhonePatterns| ==> attempt(j) == ColumnSearch(s, PhonePatterns[j]);
    r
  }

  /** `select\s+\*` tried at `i`: there is no `\b` here, so `reselect *` matches too.
      The greedy `\s+` gives back only spaces, which can never be the `*`, so the
      longest run of spaces decides. */
  predicate SelectStarAt(t: string, i: nat)
    ensures SelectStarAt(t, i) ==> i + 7 < |t| && IsSpace(t[i + 6])
  {
    CiAt(t, i, "select") && var j := RunEnd(t, i + 6, IsSpace); i + 6 < j < |t| && t[j] == '*'
  }

  predicate HasSelectStar(t: string)
    ensures HasSelectStar(t) ==> |t| >= 8
  {
    exists i :: 0 <= i < |t| && SelectStarAt(t, i)
  }

  /** `select\s+\*` read as the regex says: `select` in any case, one or more
      whitespace characters, then `*`. The greedy test at `i` agrees with it both ways. */
  lemma SelectStarMeans(t: string, i: nat)
    ensures SelectStarAt(t, i) <==>
      exists j :: i + 6 < j < |t| && CiAt(t, i, "select") && (forall k :: i + 6 <= k < j ==> IsSpace(t[k])) && t[j] == '*'
  {
    if j :| i + 6 < j < |t| && CiAt(t, i, "select") && (forall k :: i + 6 <= k < j ==> IsSpace(t[k])) && t[j] == '*' {
      RunEndAt(t, i + 6, j, IsSpace);
    }
  }

  /** `re.search` with `select\s+\*` succeeds exactly when some position starts
      `select`, whitespace and `*`. */
  lemma HasSelectStarMeans(t: string)
    ensures HasSelectStar(t) <==>
      exists i: nat, j :: i + 6 < j < |t| && CiAt(t, i, "select") && (forall k :: i + 6 <= k < j ==> IsSpace(t[k])) && t[j] == '*'
  {
    if HasSelectStar(t) {
      var i :| 0 <= i < |t| && SelectStarAt(t, i);
      SelectStarMeans(t, i);
    }
    if i: nat, j :| i + 6 < j < |t| && CiAt(t, i, "select") && (forall k :: i + 6 <= k < j ==> IsSpace(t[k])) && t[j] == '*' {
      SelectStarMeans(t, i);
    }
  }

  /** The whole word that starts at `i`. */
  function WordFrom(s: string, i: nat): string
    requires i <= |s|
  {
    s[i..RunEnd(s, i, IsWordChar)]
  }

  /** The strings are equal ignoring case. */
  predicate CiEqual(w: string, t: string) {
    |w| == |t| && CiAt(w, 0, t)
  }

  /** What a whole word must be for the column pattern to match it, ignoring case:
      the token itself, or for `to_contact(?:_\w+)?` also the token, an underscore
      and at least one more word character. */
  predicate Fits(p: ColumnPattern, w: string) {
    match p
    case Word(t) => CiEqual(w, t)
    case WordOrSuffixed(t) => CiEqual(w, t) || (|w| > |t| + 1 && CiAt(w, 0, t + "_"))
  }

  /** A column pattern matches at `i` exactly when a whole word starts there that
      fits the pattern, and the match is that whole word. */
  lemma ColumnMatchIsWholeWord(s: string, p: ColumnPattern, i: nat)
    requires IsLowerWord(p.token) && i <= |s|
    ensures ColumnMatchEnd(s, p, i).Some? <==> WordStart(s, i) && Fits(p, WordFrom(s, i))
    ensures ColumnMatchEnd(s, p, i).Some? ==> ColumnMatchEnd(s, p, i).value == RunEnd(s, i, IsWordChar)
  {
    var t := p.token;
    var n := |t|;
    if CiAt(s, i, t) {
      TokenAt(s, t, i);
      if p.WordOrSuffixed? && i + n + 1 < |s| && s[i + n] == '_' && IsWordChar(s[i + n + 1]) {
        SuffixTaken(s, t, i);
      } else {
        BareToken(s, t, i);
        if p.WordOrSuffixed? {
          SuffixAbsent(s, t, i);
        }
      }
    } else {
      NoTokenNoFit(s, p, i);
    }
  }

  /** Where a lower-case token occurs ignoring case, a word starts (if it is at a
      boundary) that begins with the token. */
  lemma TokenAt(s: string, t: string, i: nat)
    requires IsLowerWord(t) && CiAt(s, i, t)
    ensures WordAt(s, i) && i + |t| <= RunEnd(s, i, IsWordChar)
    ensures RunEnd(s, i, IsWordChar) == RunEnd(s, i + |t|, IsWordChar)
    ensures CiAt(WordFrom(s, i), 0, t)
  {
    forall k | i <= k < i + |t| ensures IsWordChar(s[k]) {
      CiEqWord(s[k], t[k - i]);
    }
    RunEndSkip(s, i, i + |t|, IsWordChar);
    var w := WordFrom(s, i);
    forall k | 0 <= k < |t| ensures CiEq(w[k], t[k]) {
      assert w[k] == s[i + k];
    }
  }

  /** After the token come `_` and a word character: the whole word fits `to_contact(?:_\w+)?`. */
  lemma SuffixTaken(s: string, t: string, i: nat)
    requires i + |t| + 1 < |s| && s[i + |t|] == '_' && IsWordChar(s[i + |t| + 1])
    requires i + |t| <= RunEnd(s, i, IsWordChar) == RunEnd(s, i + |t|, IsWordChar)
    requires CiAt(WordFrom(s, i), 0, t)
    ensures RunEnd(s, i, IsWordChar) == RunEnd(s, i + |t| + 1, IsWordChar)
    ensures Fits(WordOrSuffixed(t), WordFrom(s, i))
  {
    var n := |t|;
    RunEndSkip(s, i + n, i + n + 2, IsWordChar);
    RunEndSkip(s, i + n + 1, i + n + 2, IsWordChar);
    var w := WordFrom(s, i);
    forall k | 0 <= k < n + 1 ensures CiEq(w[k], (t + "_")[k]) {
      if k < n {
        assert (t + "_")[k] == t[k];
      } else {
        assert w[k] == s[i + n];
      }
    }
  }

  /** The word equals the token, ignoring case, exactly when it ends right after it. */
  lemma BareToken(s: string, t: string, i: nat)
    requires i <= |s| && i + |t| <= RunEnd(s, i, IsWordChar)
    requires CiAt(WordFrom(s, i), 0, t)
    ensures CiEqual(WordFrom(s, i), t) <==> RunEnd(s, i, IsWordChar) == i + |t|
  {
  }

  /** Without `_` and a word character after the token, no suffix can follow it. */
  lemma SuffixAbsent(s: string, t: string, i: nat)
    requires i <= |s| && !(i + |t| + 1 < |s| && s[i + |t|] == '_' && IsWordChar(s[i + |t| + 1]))
    ensures !(|WordFrom(s, i)| > |t| + 1 && CiAt(WordFrom(s, i), 0, t + "_"))
  {
    var n := |t|;
    var w := WordFrom(s, i);
    if |w| > n + 1 {
      assert w[n] == s[i + n] && w[n + 1] == s[i + n + 1];
      assert CiAt(w, 0, t + "_") ==> CiEq(w[n], (t + "_")[n]);
    }
  }

  /** Without the token at `i`, no word starting there fits. */
  lemma NoTokenNoFit(s: string, p: ColumnPattern, i: nat)
    requires i <= |s| && !CiAt(s, i, p.token)
    ensures !Fits(p, WordFrom(s, i))
  {
    FitHasToken(s, p, i);
  }

  /** A word that fits a column pattern begins with its token. */
  lemma FitHasToken(s: string, p: ColumnPattern, i: nat)
    requires i <= |s|
    ensures Fits(p, WordFrom(s, i)) ==> CiAt(s, i, p.token)
  {
    var t := p.token;
    var w := WordFrom(s, i);
    if Fits(p, w) {
      assert CiAt(w, 0, t) by {
        if !CiEqual(w, t) {
          forall k | 0 <= k < |t| ensures CiEq(w[k], t[k]) {
            assert CiEq(w[k], (t + "_")[k]);
          }
        }
      }
      WordPrefixAt(s, i, t);
    }
  }

  /** What the word starting at `i` begins with, the text has at `i`. */
  lemma WordPrefixAt(s: string, i: nat, t: string)
    requires i <= |s| && CiAt(WordFrom(s, i), 0, t)
    ensures CiAt(s, i, t)
  {
    var w := WordFrom(s, i);
    forall k | 0 <= k < |t| ensures CiEq(s[i + k], t[k]) {
      assert w[k] == s[i + k];
    }
  }

  /** Some whole word of `s` fits the column pattern. */
  predicate MatchesSomewhere(s: string, p: ColumnPattern) {
    exists i :: 0 <= i <= |s| && WordStart(s, i) && Fits(p, WordFrom(s, i))
  }

  /** `s[i..e]` is the leftmost whole word of `s` that fits the column pattern. */
  predicate LeftmostFit(s: string, p: ColumnPattern, i: nat, e: nat) {
    && i <= |s| && WordStart(s, i) && Fits(p, WordFrom(s, i)) && e == RunEnd(s, i, IsWordChar)
    && forall k :: 0 <= k < i ==> !(WordStart(s, k) && Fits(p, WordFrom(s, k)))
  }

  /** `re.search` with a column pattern finds the leftmost whole word that fits it,
      and finds nothing exactly when no word fits. */
  lemma ColumnSearchFindsWord(s: string, p: ColumnPattern)
    requires IsLowerWord(p.token)
    ensures ColumnSearch(s, p).Some? ==> LeftmostFit(s, p, ColumnSearch(s, p).value.at, ColumnSearch(s, p).value.value)
    ensures ColumnSearch(s, p).None? <==> !MatchesSomewhere(s, p)
  {
    forall k | 0 <= k <= |s| ensures ColumnMatchEnd(s, p, k).Some? <==> WordStart(s, k) && Fits(p, WordFrom(s, k)) {
      ColumnMatchIsWholeWord(s, p, k);
    }
    match ColumnSearch(s, p)
    case Some(f) =>
      ColumnMatchIsWholeWord(s, p, f.at);
    case None =>
  }

  /** Lower-casing the text changes no column match: `re.IGNORECASE` already ignores case. */
  lemma ColumnMatchEndLower(s: string, p: ColumnPattern, i: nat)
    ensures ColumnMatchEnd(Lower(s), p, i) == ColumnMatchEnd(s, p, i)
  {
    BoundaryLower(s, i);
    CiAtLower(s, i, p.token);
    BoundaryLower(s, i + |p.token|);
    if p.WordOrSuffixed? {
      SuffixLower(s, i + |p.token|);
    }
  }

  /** Lower-casing keeps a suffix `_\w+` after position `k` and where it ends. */
  lemma SuffixLower(s: string, k: nat)
    ensures var t := Lower(s);
      (k + 1 < |t| && t[k] == '_' && IsWordChar(t[k + 1])) <==> (k + 1 < |s| && s[k] == '_' && IsWordChar(s[k + 1]))
    ensures k + 1 < |s| ==> RunEnd(Lower(s), k + 1, IsWordChar) == RunEnd(s, k + 1, IsWordChar)
  {
    if k + 1 < |s| {
      BoundaryLower(s, k + 1);
      assert Lower(s)[k] == LowerChar(s[k]);
      RunEndLower(s, k + 1);
    }
  }

  /** The guard searches the lower-cased query, which finds `select` exactly where
      the query itself has it as a whole word in any case. */
  lemma SelectGuardIsWholeWord(q: string)
    ensures ColumnSearch(Lower(q), SelectWord).Some? <==> MatchesSomewhere(q, SelectWord)
  {
    forall k: nat | 0 <= k < |q| + 1 ensures ColumnMatchEnd(Lower(q), SelectWord, k) == ColumnMatchEnd(q, SelectWord, k) {
      ColumnMatchEndLower(q, SelectWord, k);
    }
    ColumnSearchFindsWord(q, SelectWord);
  }

  /** The loop over `PHONE_PATTERNS` stops at the first entry that fits some whole
      word, and returns that entry's leftmost fitting word; it finds nothing exactly
      when no entry fits any word. */
  lemma ColumnStageFindsWord(s: string)
    ensures ColumnStage(s).Some? ==>
      var hit := ColumnStage(s).value;
      && hit.at < |PhonePatterns|
      && (forall j :: 0 <= j < hit.at ==> !MatchesSomewhere(s, PhonePatterns[j]))
      && LeftmostFit(s, PhonePatterns[hit.at], hit.value.at, hit.value.value)
    ensures ColumnStage(s).None? <==> forall j :: 0 <= j < |PhonePatterns| ==> !MatchesSomewhere(s, PhonePatterns[j])
  {
    PhonePatternsWellFormed();
    forall j | 0 <= j < |PhonePatterns|
      ensures ColumnSearch(s, PhonePatterns[j]).None? <==> !MatchesSomewhere(s, PhonePatterns[j])
    {
      assert PhonePatterns[j] in PhonePatterns;
      ColumnSearchFindsWord(s, PhonePatterns[j]);
    }
    if ColumnStage(s).Some? {
      var hit := ColumnStage(s).value;
      assert PhonePatterns[hit.at] in PhonePatterns;
      ColumnSearchFindsWord(s, PhonePatterns[hit.at]);
    }
  }

  // ---------------------------------------------------------------------------
  // PHONE_TABLES and the regex built around each of them
  // ---------------------------------------------------------------------------

  /** How a table pattern starts: `\b`, or a TAB character. The first entry
      `\to_contact?\b` begins with the escape `\t`, which takes the `t` of `to_contact`:
      that entry is a TAB, then `o_contac`, then `t?`, then `\b`. */
  datatype Lead = AtBoundary | Tab

  /** An entry of `PHONE_TABLES`: the lead, a literal stem, an optional last
      character (`s?`, `t?`) and a final `\b`. */
  datatype TablePattern = TablePattern(lead: Lead, stem: string, optional: Option<char>)

  const PhoneTables: seq<TablePattern> := [
    TablePattern(Tab, "o_contac", Some('t')),
    TablePattern(AtBoundary, "contact", Some('s')),
    TablePattern(AtBoundary, "addresse", Some('s')),
    TablePattern(AtBoundary, "recipient", Some('s')),
    TablePattern(AtBoundary, "sender", Some('s')),
    TablePattern(AtBoundary, "user_contact", Some('s')),
    TablePattern(AtBoundary, "customer_contact", Some('s')),
    TablePattern(AtBoundary, "contact_info", None)
  ]

  /** The stem and the optional character are lower-case word characters. */
  predicate WellFormedTable(tp: TablePattern) {
    IsLowerWord(tp.stem) && (tp.optional.Some? ==> 'a' <= tp.optional.value <= 'z')
  }

  /** Every character of `s[lo..hi]` is a word character. */
  predicate WordRun(s: string, lo: nat, hi: nat) {
    lo <= hi <= |s| && forall k :: lo <= k < hi ==> IsWordChar(s[k])
  }

  /** Every character of `s[lo..hi]` is in `[^\s,`"]`. */
  predicate TokenRun(s: string, lo: nat, hi: nat) {
    lo <= hi <= |s| && forall k :: lo <= k < hi ==> IsTokenChar(s[k])
  }

  /** The table pattern tried at `r`: the positions where it can end, in the order
      the engine tries them (with the optional character first, then without). */
  function TablePatternEnds(s: string, tp: TablePattern, r: nat): (ends: seq<nat>)
    ensures forall e <- ends :: r <= e <= |s| && Boundary(s, e)
    ensures WellFormedTable(tp) ==> forall e <- ends :: r < e && WordRun(s, r + 1, e)
    ensures WellFormedTable(tp) ==> forall e <- ends :: IsWordChar(s[r]) || (tp.lead.Tab? && s[r] == '\t')
  {
    var leadOk := match tp.lead
      case AtBoundary => Boundary(s, r)
      case Tab => r < |s| && s[r] == '\t';
    var b := if tp.lead.Tab? then r + 1 else r;
    if !leadOk || !CiAt(s, b, tp.stem) then []
    else
      var k := b + |tp.stem|;
      assert WellFormedTable(tp) ==> WordRun(s, b, k) by {
        if WellFormedTable(tp) {
          forall l | b <= l < k ensures IsWordChar(s[l]) {
            CiEqWord(s[l], tp.stem[l - b]);
          }
        }
      }
      EndsAfterStem(s, k, tp.optional)
  }

  /** Where the pattern can end once its stem has been read up to `k`: after the
      optional character, then right after the stem, each where a boundary stands. */
  function EndsAfterStem(s: string, k: nat, optional: Option<char>): (ends: seq<nat>)
    requires k <= |s|
    ensures forall e <- ends :: k <= e <= |s| && Boundary(s, e)
    ensures (optional.Some? ==> 'a' <= optional.value <= 'z') ==> forall e <- ends :: WordRun(s, k, e)
  {
    match optional
    case None => if Boundary(s, k) then [k] else []
    case Some(c) =>
      assert 'a' <= c <= 'z' && k < |s| && CiEq(s[k], c) ==> IsWordChar(s[k]) by {
        if 'a' <= c <= 'z' && k < |s| && CiEq(s[k], c) {
          CiEqWord(s[k], c);
        }
      }
      (if k < |s| && CiEq(s[k], c) && Boundary(s, k + 1) then [k + 1] else [])
      + (if Boundary(s, k) then [k] else [])
  }

  /** Where the word of a table pattern tried at `r` starts: after the TAB of the first entry. */
  function StemStart(tp: TablePattern, r: nat): nat {
    if tp.lead.Tab? then r + 1 else r
  }

  /** The lead of a table pattern holds at `r`: a word starts there, or for the first
      entry a TAB stands there. */
  predicate LeadAt(s: string, tp: TablePattern, r: nat) {
    match tp.lead
    case AtBoundary => WordStart(s, r)
    case Tab => r < |s| && s[r] == '\t'
  }

  /** A whole word fits a table pattern: it is the stem, or the stem and the optional
      character, ignoring case. */
  predicate TableFits(tp: TablePattern, w: string) {
    CiEqual(w, tp.stem) || (tp.optional.Some? && CiEqual(w, tp.stem + [tp.optional.value]))
  }

  /** A table pattern ends at `e` exactly when its lead holds and the whole word after
      the lead fits the pattern and ends at `e`: `contacts` and `contact` match
      `\bcontacts?\b`, `contactsx` and `address` do not match any entry. */
  lemma TablePatternIsWholeWord(s: string, tp: TablePattern, r: nat, e: nat)
    requires WellFormedTable(tp) && StemStart(tp, r) <= |s|
    ensures e in TablePatternEnds(s, tp, r) <==>
      LeadAt(s, tp, r) && e == RunEnd(s, StemStart(tp, r), IsWordChar) && TableFits(tp, WordFrom(s, StemStart(tp, r)))
  {
    if CiAt(s, StemStart(tp, r), tp.stem) {
      if tp.optional.Some? {
        StemWithOptional(s, tp, r, e);
      } else {
        StemAlone(s, tp, r, e);
      }
    } else {
      NoStemNoFit(s, tp, StemStart(tp, r));
    }
  }

  /** `TablePatternIsWholeWord` for an entry whose stem is found and that has an optional character. */
  lemma StemWithOptional(s: string, tp: TablePattern, r: nat, e: nat)
    requires WellFormedTable(tp) && tp.optional.Some? && StemStart(tp, r) <= |s| && CiAt(s, StemStart(tp, r), tp.stem)
    ensures e in TablePatternEnds(s, tp, r) <==>
      LeadAt(s, tp, r) && e == RunEnd(s, StemStart(tp, r), IsWordChar) && TableFits(tp, WordFrom(s, StemStart(tp, r)))
  {
    var b := StemStart(tp, r);
    var w := WordFrom(s, b);
    StemForms(s, tp.stem, tp.optional.value, b);
    OptionalEndsIff(s, tp, r, e, RunEnd(s, b, IsWordChar), CiEqual(w, tp.stem), CiEqual(w, tp.stem + [tp.optional.value]));
  }

  /** With the stem found at `i`, the word there is the stem exactly when a boundary
      follows the stem, and the stem and `c` exactly when `c` and then a boundary follow;
      either way the word ends there. */
  lemma StemForms(s: string, t: string, c: char, i: nat)
    requires IsLowerWord(t) && 'a' <= c <= 'z' && CiAt(s, i, t)
    ensures i + |t| <= |s|
    ensures var k := i + |t|; var w := WordFrom(s, i);
      && (CiEqual(w, t) <==> Boundary(s, k))
      && (CiEqual(w, t + [c]) <==> k < |s| && CiEq(s[k], c) && Boundary(s, k + 1))
      && (CiEqual(w, t) ==> RunEnd(s, i, IsWordChar) == k)
      && (CiEqual(w, t + [c]) ==> RunEnd(s, i, IsWordChar) == k + 1)
  {
    var k := i + |t|;
    var w := WordFrom(s, i);
    BareStem(s, t, i);
    TokenAt(s, t, i);
    assert CiEqual(w, t + [c]) <==> k < |s| && CiEq(s[k], c) && Boundary(s, k + 1) by {
      OptionalCharAt(s, t, c, i);
    }
  }

  /** `StemWithOptional` once the two forms of the word are tied to the characters
      after the stem. */
  lemma OptionalEndsIff(s: string, tp: TablePattern, r: nat, e: nat, wordEnd: nat, fitsStem: bool, fitsLonger: bool)
    requires WellFormedTable(tp) && tp.optional.Some? && StemStart(tp, r) <= |s| && CiAt(s, StemStart(tp, r), tp.stem)
    requires var k := StemStart(tp, r) + |tp.stem|;
      && (fitsStem <==> Boundary(s, k))
      && (fitsLonger <==> k < |s| && CiEq(s[k], tp.optional.value) && Boundary(s, k + 1))
      && (fitsStem ==> wordEnd == k) && (fitsLonger ==> wordEnd == k + 1)
    ensures e in TablePatternEnds(s, tp, r) <==> LeadAt(s, tp, r) && e == wordEnd && (fitsStem || fitsLonger)
  {
    var k := StemStart(tp, r) + |tp.stem|;
    var longer := k < |s| && CiEq(s[k], tp.optional.value) && Boundary(s, k + 1);
    assert longer ==> !Boundary(s, k) by {
      if longer {
        CiEqWord(s[k], tp.optional.value);
      }
    }
    OptionalEnds(s, tp, r);
    EndsOfTwo(TablePatternEnds(s, tp, r), LeadAt(s, tp, r), e, wordEnd, k, longer, Boundary(s, k), fitsStem, fitsLonger);
  }

  /** The reasoning of `StemWithOptional` with the text abstracted away: two candidate
      ends that exclude each other, each reached exactly when its form of the word fits. */
  lemma EndsOfTwo(ends: seq<nat>, lead: bool, e: nat, wordEnd: nat, k: nat, longer: bool, bare: bool, fitsStem: bool, fitsLonger: bool)
    requires ends == if lead then (if longer then [k + 1] else []) + (if bare then [k] else []) else []
    requires (fitsStem <==> bare) && (fitsLonger <==> longer) && !(longer && bare)
    requires (fitsStem ==> wordEnd == k) && (fitsLonger ==> wordEnd == k + 1)
    ensures e in ends <==> lead && e == wordEnd && (fitsStem || fitsLonger)
  {
  }

  /** The ends an entry with an optional character can reach once its stem is found:
      after the optional character, then right after the stem. */
  lemma OptionalEnds(s: string, tp: TablePattern, r: nat)
    requires WellFormedTable(tp) && tp.optional.Some? && StemStart(tp, r) <= |s| && CiAt(s, StemStart(tp, r), tp.stem)
    ensures var k := StemStart(tp, r) + |tp.stem|; var c := tp.optional.value;
      TablePatternEnds(s, tp, r) ==
        if LeadAt(s, tp, r)
        then (if k < |s| && CiEq(s[k], c) && Boundary(s, k + 1) then [k + 1] else []) + (if Boundary(s, k) then [k] else [])
        else []
  {
    TokenAt(s, tp.stem, StemStart(tp, r));
  }

  /** `TablePatternIsWholeWord` for an entry whose stem is found and that has no optional character. */
  lemma StemAlone(s: string, tp: TablePattern, r: nat, e: nat)
    requires WellFormedTable(tp) && tp.optional.None? && StemStart(tp, r) <= |s| && CiAt(s, StemStart(tp, r), tp.stem)
    ensures e in TablePatternEnds(s, tp, r) <==>
      LeadAt(s, tp, r) && e == RunEnd(s, StemStart(tp, r), IsWordChar) && TableFits(tp, WordFrom(s, StemStart(tp, r)))
  {
    var b := StemStart(tp, r);
    var k := b + |tp.stem|;
    BareStem(s, tp.stem, b);
    AloneEnds(s, tp, r);
    EndsOfOne(TablePatternEnds(s, tp, r), LeadAt(s, tp, r), e, RunEnd(s, b, IsWordChar), k, Boundary(s, k), CiEqual(WordFrom(s, b), tp.stem));
  }

  /** The reasoning of `StemAlone` with the text abstracted away: one candidate end,
      reached exactly when the word is the stem. */
  lemma EndsOfOne(ends: seq<nat>, lead: bool, e: nat, wordEnd: nat, k: nat, bare: bool, fitsStem: bool)
    requires ends == if lead && bare then [k] else []
    requires (fitsStem <==> bare) && (fitsStem ==> wordEnd == k)
    ensures e in ends <==> lead && e == wordEnd && fitsStem
  {
  }

  /** The one end an entry without an optional character can reach once its stem is
      found: right after the stem, when a boundary stands there. */
  lemma AloneEnds(s: string, tp: TablePattern, r: nat)
    requires WellFormedTable(tp) && tp.optional.None? && StemStart(tp, r) <= |s| && CiAt(s, StemStart(tp, r), tp.stem)
    ensures var k := StemStart(tp, r) + |tp.stem|;
      TablePatternEnds(s, tp, r) == if LeadAt(s, tp, r) && Boundary(s, k) then [k] else []
  {
    TokenAt(s, tp.stem, StemStart(tp, r));
  }

  /** With the stem found at `i`, the word there is the stem exactly when a boundary
      follows the stem, and then it ends there. */
  lemma BareStem(s: string, t: string, i: nat)
    requires IsLowerWord(t) && CiAt(s, i, t)
    ensures i + |t| <= |s|
    ensures var k := i + |t|; var w := WordFrom(s, i);
      && (CiEqual(w, t) <==> Boundary(s, k))
      && (CiEqual(w, t) ==> RunEnd(s, i, IsWordChar) == k)
  {
    TokenAt(s, t, i);
    BareToken(s, t, i);
  }

  /** Without the stem at `i`, no word starting there fits the table pattern. */
  lemma NoStemNoFit(s: string, tp: TablePattern, i: nat)
    requires i <= |s| && !CiAt(s, i, tp.stem)
    ensures !TableFits(tp, WordFrom(s, i))
  {
    TableFitHasStem(s, tp, i);
  }

  /** A word that fits a table pattern begins with its stem. */
  lemma TableFitHasStem(s: string, tp: TablePattern, i: nat)
    requires i <= |s|
    ensures TableFits(tp, WordFrom(s, i)) ==> CiAt(s, i, tp.stem)
  {
    var t := tp.stem;
    var w := WordFrom(s, i);
    if TableFits(tp, w) {
      assert CiAt(w, 0, t) by {
        if !CiEqual(w, t) {
          forall k | 0 <= k < |t| ensures CiEq(w[k], t[k]) {
            assert CiEq(w[k], (t + [tp.optional.value])[k]);
          }
        }
      }
      WordPrefixAt(s, i, t);
    }
  }

  /** After the stem, the word fits with the optional character exactly when that
      character follows the stem and ends the word. */
  lemma OptionalCharAt(s: string, t: string, c: char, i: nat)
    requires IsLowerWord(t) && 'a' <= c <= 'z' && CiAt(s, i, t)
    requires i + |t| <= RunEnd(s, i, IsWordChar) == RunEnd(s, i + |t|, IsWordChar)
    requires CiAt(WordFrom(s, i), 0, t)
    ensures CiEqual(WordFrom(s, i), t + [c]) <==>
      i + |t| < |s| && CiEq(s[i + |t|], c) && Boundary(s, i + |t| + 1)
  {
    var n := |t|;
    if i + n < |s| && CiEq(s[i + n], c) && Boundary(s, i + n + 1) {
      OptionalCharTaken(s, t, c, i);
    }
    var w := WordFrom(s, i);
    if CiEqual(w, t + [c]) {
      assert CiEq(w[n], (t + [c])[n]);
      assert w[n] == s[i + n];
    }
  }

  /** The optional character and then a boundary after the stem: the word is the stem
      and the character. */
  lemma OptionalCharTaken(s: string, t: string, c: char, i: nat)
    requires IsLowerWord(t) && 'a' <= c <= 'z' && CiAt(s, i, t)
    requires i + |t| <= RunEnd(s, i, IsWordChar) == RunEnd(s, i + |t|, IsWordChar)
    requires CiAt(WordFrom(s, i), 0, t)
    requires i + |t| < |s| && CiEq(s[i + |t|], c) && Boundary(s, i + |t| + 1)
    ensures CiEqual(WordFrom(s, i), t + [c])
  {
    var n := |t|;
    var w := WordFrom(s, i);
    RunEndSkip(s, i + n, i + n + 1, IsWordChar);
    RunEndAt(s, i + n + 1, i + n + 1, IsWordChar);
    forall k | 0 <= k < n + 1 ensures CiEq(w[k], (t + [c])[k]) {
      if k < n {
        assert (t + [c])[k] == t[k];
      } else {
        assert w[k] == s[i + n];
      }
    }
  }

  /** The back-reference `\1`: nothing when group 1 matched empty, else the same quote. */
  predicate Closes(s: string, t: nat, quote: Option<char>) {
    quote.None? || (t < |s| && s[t] == quote.value)
  }

  /** The second greedy `[^\s,`"]*`, holding `s[e..t]`: `\1` is tried at `t`, and
      the run gives back one character at a time down to `e`. */
  function CloseFrom(s: string, e: nat, t: nat, quote: Option<char>): (r: Option<nat>)
    requires e <= t <= |s|
    ensures r.Some? ==> e <= r.value <= t && Closes(s, r.value, quote)
    decreases t - e
  {
    if Closes(s, t, quote) then Some(t)
    else if t == e then None
    else CloseFrom(s, e, t - 1, quote)
  }

  /** Group 2 after its first run: where the table pattern ended and where the group closes. */
  datatype Tail = Tail(patEnd: nat, close: nat)

  /** The pattern's possible ends, tried in order, each followed by the second run and `\1`. */
  function TryEnds(s: string, ends: seq<nat>, quote: Option<char>): (r: Option<Tail>)
    requires forall e <- ends :: e <= |s|
    ensures r.Some? ==> r.value.patEnd in ends && TokenRun(s, r.value.patEnd, r.value.close)
    ensures r.Some? ==> Closes(s, r.value.close, quote)
  {
    if ends == [] then None
    else
      var e := ends[0];
      assert e in ends;
      assert forall e' <- ends[1..] :: e' in ends;
      match CloseFrom(s, e, RunEnd(s, e, IsTokenChar), quote)
      case Some(t) => Some(Tail(e, t))
      case None => TryEnds(s, ends[1..], quote)
  }

  /** Group 2 as a whole: where the table pattern starts and ends, and where the group closes. */
  datatype Group = Group(patStart: nat, patEnd: nat, close: nat)

  /** The table pattern tried at `k`, followed by the second run and `\1`. */
  function StartAttempt(s: string, tp: TablePattern, quote: Option<char>): nat -> Option<Tail> {
    (k: nat) => TryEnds(s, TablePatternEnds(s, tp, k), quote)
  }

  /** The first greedy `[^\s,`"]*` of group 2, holding `s[q..r]`: the table pattern is
      tried at `r`, and the run gives back one character at a time down to `q`. */
  function TryStarts(s: string, tp: TablePattern, q: nat, r: nat, quote: Option<char>): (g: Option<Group>)
    requires TokenRun(s, q, r)
    ensures g.Some? ==> q <= g.value.patStart <= r && g.value.patEnd in TablePatternEnds(s, tp, g.value.patStart)
    ensures g.Some? ==> TokenRun(s, q, g.value.patStart) && TokenRun(s, g.value.patEnd, g.value.close)
    ensures g.Some? ==> Closes(s, g.value.close, quote)
  {
    match LastSome(StartAttempt(s, tp, quote), q, r)
    case Some(f) => Some(Group(f.at, f.value.patEnd, f.value.close))
    case None => None
  }

  /** A match of the whole table regex
      `\bfrom\s+([`"]?)([^\s,`"]*<pattern>[^\s,`"]*)\1`: where `from` starts, the
      delimiter taken by group 1 (if any), and group 2 as `open..close`, with the
      table pattern's own match `patStart..patEnd` inside it. */
  datatype Capture = Capture(from: nat, quote: Option<char>, open: nat, patStart: nat, patEnd: nat, close: nat)

  /** Where group 1 starts: just before the delimiter, if one was taken. */
  function Opening(c: Capture): int {
    if c.quote.Some? then c.open - 1 else c.open
  }

  /** Group 1 and group 2 with group 1 starting at `p`: a delimiter is taken first when
      there is one, then the empty alternative. */
  function TryOpenings(s: string, tp: TablePattern, from: nat, p: nat): (c: Option<Capture>)
    requires p <= |s|
    ensures c.Some? ==> c.value.from == from && Opening(c.value) == p
    ensures c.Some? && c.value.quote.Some? ==> p < |s| && IsQuote(s[p]) && c.value.quote.value == s[p]
    ensures c.Some? ==> c.value.open <= c.value.patStart && c.value.patEnd in TablePatternEnds(s, tp, c.value.patStart)
    ensures c.Some? ==> TokenRun(s, c.value.open, c.value.patStart) && TokenRun(s, c.value.patEnd, c.value.close)
    ensures c.Some? ==> Closes(s, c.value.close, c.value.quote)
  {
    var quoted :=
      if p < |s| && IsQuote(s[p]) then
        match TryStarts(s, tp, p + 1, RunEnd(s, p + 1, IsTokenChar), Some(s[p]))
        case Some(g) => Some(Capture(from, Some(s[p]), p + 1, g.patStart, g.patEnd, g.close))
        case None => None
      else None;
    if quoted.Some? then quoted
    else match TryStarts(s, tp, p, RunEnd(s, p, IsTokenChar), None)
      case Some(g) => Some(Capture(from, None, p, g.patStart, g.patEnd, g.close))
      case None => None
  }

  /** The rest of the table regex with group 1 starting at `o`. */
  function OpeningAttempt(s: string, tp: TablePattern, from: nat): nat -> Option<Capture> {
    (o: nat) => if o <= |s| then TryOpenings(s, tp, from, o) else None
  }

  /** `\s+` after `from` (which starts at `from`), holding `s[from + 4..p]`: greedy, it
      gives back one space at a time while at least one remains. */
  function TrySpaces(s: string, tp: TablePattern, from: nat, p: nat): (c: Option<Capture>)
    requires from + 4 < p <= |s|
    ensures c.Some? ==> c.value.from == from && from + 4 < Opening(c.value) <= p
    ensures c.Some? && c.value.quote.Some? ==> Opening(c.value) < |s| && IsQuote(s[Opening(c.value)]) && c.value.quote.value == s[Opening(c.value)]
    ensures c.Some? ==> c.value.open <= c.value.patStart && c.value.patEnd in TablePatternEnds(s, tp, c.value.patStart)
    ensures c.Some? ==> TokenRun(s, c.value.open, c.value.patStart) && TokenRun(s, c.value.patEnd, c.value.close)
    ensures c.Some? ==> Closes(s, c.value.close, c.value.quote)
  {
    match LastSome(OpeningAttempt(s, tp, from), from + 5, p)
    case Some(f) => Some(f.value)
    case None => None
  }

  /** A capture of the table regex, as every match of it looks. */
  predicate WellFormedCapture(s: string, tp: TablePattern, c: Capture) {
    && Boundary(s, c.from) && CiAt(s, c.from, "from")
    && c.from + 4 < Opening(c) <= |s|
    && (forall k :: c.from + 4 <= k < Opening(c) ==> IsSpace(s[k]))
    && (c.quote.Some? ==> Opening(c) < |s| && IsQuote(s[Opening(c)]) && s[Opening(c)] == c.quote.value)
    && c.open <= c.patStart && c.patEnd in TablePatternEnds(s, tp, c.patStart)
    && TokenRun(s, c.open, c.patStart) && TokenRun(s, c.patEnd, c.close)
    && Closes(s, c.close, c.quote)
  }

  /** The table regex tried at position `i`. */
  function TableMatchAt(s: string, tp: TablePattern, i: nat): (c: Option<Capture>)
    ensures c.Some? ==> c.value.from == i && WellFormedCapture(s, tp, c.value)
  {
    if !(Boundary(s, i) && CiAt(s, i, "from")) then None
    else
      var p := RunEnd(s, i + 4, IsSpace);
      if p == i + 4 then None
      else
        var c := TrySpaces(s, tp, i, p);
        assert c.Some? ==> forall k :: i + 4 <= k < Opening(c.value) ==> IsSpace(s[k]);
        c
  }

  // ---------------------------------------------------------------------------
  // Which match the backtracking engine picks
  // ---------------------------------------------------------------------------

  /** A token run from `lo` can end exactly anywhere up to the end of the longest one. */
  lemma TokenRunWithin(s: string, lo: nat, hi: nat)
    requires lo <= |s|
    ensures TokenRun(s, lo, hi) <==> lo <= hi <= RunEnd(s, lo, IsTokenChar)
  {
  }

  /** After the table pattern ends at `e`, the second `[^\s,`"]*` and `\1` can match. */
  ghost predicate CanClose(s: string, e: nat, quote: Option<char>) {
    exists t :: TokenRun(s, e, t) && Closes(s, t, quote)
  }

  /** Group 2 can be formed from `open` and closed as `quote` demands: token characters
      up to a place `k` where the table pattern matches, up to one of its ends `e`,
      then token characters and `\1`. */
  ghost predicate CanFormGroup(s: string, tp: TablePattern, open: nat, quote: Option<char>) {
    exists k :: TokenRun(s, open, k) && StartCanClose(s, tp, k, quote)
  }

  /** The table pattern can match from `k` up to an end after which group 2 can close. */
  ghost predicate StartCanClose(s: string, tp: TablePattern, k: nat, quote: Option<char>) {
    exists e :: e in TablePatternEnds(s, tp, k) && CanClose(s, e, quote)
  }

  /** The second run gives back as little as it can: it stops at the largest position
      up to `t` where `\1` holds, and finds nothing exactly when `\1` holds nowhere in
      `e..t`. */
  lemma {:induction false} CloseFromIsLargest(s: string, e: nat, t: nat, quote: Option<char>)
    requires e <= t <= |s|
    ensures CloseFrom(s, e, t, quote).None? <==> forall k :: e <= k <= t ==> !Closes(s, k, quote)
    ensures CloseFrom(s, e, t, quote).Some? ==>
      forall k :: CloseFrom(s, e, t, quote).value < k <= t ==> !Closes(s, k, quote)
    decreases t - e
  {
    if !Closes(s, t, quote) && t > e {
      CloseFromIsLargest(s, e, t - 1, quote);
    }
  }

  /** From the longest token run after `e`, the engine closes group 2 exactly when it
      can be closed at all, and at the largest place where `\1` holds. */
  lemma CloseAfter(s: string, e: nat, quote: Option<char>)
    requires e <= |s|
    ensures var r := CloseFrom(s, e, RunEnd(s, e, IsTokenChar), quote);
      && (r.Some? <==> CanClose(s, e, quote))
      && (r.Some? ==> TokenRun(s, e, r.value))
      && (r.Some? ==> forall k :: r.value < k && TokenRun(s, e, k) ==> !Closes(s, k, quote))
  {
    var n := RunEnd(s, e, IsTokenChar);
    CloseFromIsLargest(s, e, n, quote);
    forall k | TokenRun(s, e, k)
      ensures k <= n
    {
      TokenRunWithin(s, e, k);
    }
    var r := CloseFrom(s, e, n, quote);
    if r.Some? {
      assert TokenRun(s, e, r.value);
    }
  }

  /** The pattern's ends are tried in order: the first one after which group 2 can
      close is used, closed at the largest place where `\1` holds; nothing is found
      exactly when no end can close. */
  lemma {:induction false} TryEndsIsFirst(s: string, ends: seq<nat>, quote: Option<char>)
    requires forall e <- ends :: e <= |s|
    ensures TryEnds(s, ends, quote).None? <==> forall e <- ends :: !CanClose(s, e, quote)
    ensures var r := TryEnds(s, ends, quote);
      r.Some? ==> exists n :: 0 <= n < |ends| && ends[n] == r.value.patEnd && forall m :: 0 <= m < n ==> !CanClose(s, ends[m], quote)
    ensures var r := TryEnds(s, ends, quote);
      r.Some? ==> forall k :: r.value.close < k && TokenRun(s, r.value.patEnd, k) ==> !Closes(s, k, quote)
  {
    if ends != [] {
      var e := ends[0];
      assert e in ends;
      CloseAfter(s, e, quote);
      var rest := ends[1..];
      assert forall e' <- rest :: e' in ends;
      TryEndsIsFirst(s, rest, quote);
      if !CanClose(s, e, quote) {
        assert forall e' <- ends :: e' == e || e' in rest;
        var r := TryEnds(s, ends, quote);
        if r.Some? {
          var n :| 0 <= n < |rest| && rest[n] == r.value.patEnd && forall m :: 0 <= m < n ==> !CanClose(s, rest[m], quote);
          assert ends[n + 1] == rest[n];
          forall m | 0 <= m < n + 1
            ensures !CanClose(s, ends[m], quote)
          {
            if m > 0 {
              assert ends[m] == rest[m - 1];
            }
          }
        }
      }
    }
  }

  /** The ends of the table pattern tried at `k` fail exactly when none of them lets
      group 2 close. */
  lemma TryEndsAt(s: string, tp: TablePattern, k: nat, quote: Option<char>)
    ensures TryEnds(s, TablePatternEnds(s, tp, k), quote).None? <==> !StartCanClose(s, tp, k, quote)
  {
    TryEndsIsFirst(s, TablePatternEnds(s, tp, k), quote);
  }

  /** The first run gives back one character at a time: the start of the table pattern
      that is used is the rightmost one in `q..r` with an end after which group 2 can
      close, and nothing is found exactly when there is none. */
  lemma TryStartsIsRightmost(s: string, tp: TablePattern, q: nat, r: nat, quote: Option<char>)
    requires TokenRun(s, q, r)
    ensures var g := TryStarts(s, tp, q, r, quote);
      g.None? <==> forall k :: q <= k <= r ==> !StartCanClose(s, tp, k, quote)
    ensures var g := TryStarts(s, tp, q, r, quote);
      g.Some? ==> TryEnds(s, TablePatternEnds(s, tp, g.value.patStart), quote) == Some(Tail(g.value.patEnd, g.value.close))
    ensures var g := TryStarts(s, tp, q, r, quote);
      g.Some? ==> forall k :: g.value.patStart < k <= r ==> !StartCanClose(s, tp, k, quote)
  {
    forall k: nat
      ensures StartAttempt(s, tp, quote)(k).None? <==> !StartCanClose(s, tp, k, quote)
    {
      TryEndsAt(s, tp, k, quote);
    }
  }

  /** From the longest token run after `open`, the engine forms group 2 exactly when it
      can be formed at all. */
  lemma TryStartsFromRun(s: string, tp: TablePattern, open: nat, quote: Option<char>)
    requires open <= |s|
    ensures TryStarts(s, tp, open, RunEnd(s, open, IsTokenChar), quote).None? <==> !CanFormGroup(s, tp, open, quote)
  {
    var n := RunEnd(s, open, IsTokenChar);
    TryStartsIsRightmost(s, tp, open, n, quote);
    forall k | 0 <= k
      ensures TokenRun(s, open, k) <==> open <= k <= n
    {
      TokenRunWithin(s, open, k);
    }
  }

  /** Group 1 takes the quote at `p` when one stands there and group 2 can be formed
      after it; otherwise group 1 is empty. A capture is found exactly when one of the
      two can match, and with a quote at `p` the empty group 1 never can. */
  lemma TryOpeningsPrefersQuote(s: string, tp: TablePattern, from: nat, p: nat)
    requires p <= |s|
    ensures var quoted := p < |s| && IsQuote(s[p]) && CanFormGroup(s, tp, p + 1, Some(s[p]));
      TryOpenings(s, tp, from, p).Some? <==> quoted || CanFormGroup(s, tp, p, None)
    ensures p < |s| && IsQuote(s[p]) && CanFormGroup(s, tp, p + 1, Some(s[p])) ==>
      TryOpenings(s, tp, from, p).Some? && TryOpenings(s, tp, from, p).value.quote == Some(s[p])
    ensures WellFormedTable(tp) && p < |s| && IsQuote(s[p]) ==> !CanFormGroup(s, tp, p, None)
    ensures WellFormedTable(tp) && p < |s| && IsQuote(s[p]) && TryOpenings(s, tp, from, p).Some? ==>
      TryOpenings(s, tp, from, p).value.quote == Some(s[p])
  {
    if p < |s| && IsQuote(s[p]) {
      TryStartsFromRun(s, tp, p + 1, Some(s[p]));
      if WellFormedTable(tp) {
        QuoteStartsNoPattern(s, tp, p);
      }
    }
    TryStartsFromRun(s, tp, p, None);
  }

  /** Group 2 cannot begin at a quote: it is not in `[^\s,`"]`, and no table pattern
      starts with one. */
  lemma QuoteStartsNoPattern(s: string, tp: TablePattern, p: nat)
    requires WellFormedTable(tp) && p < |s| && IsQuote(s[p])
    ensures !CanFormGroup(s, tp, p, None)
  {
    forall k | TokenRun(s, p, k)
      ensures !StartCanClose(s, tp, k, None)
    {
      assert k == p;
    }
  }

  /** `\s+` gives back one space at a time: group 1 starts at the farthest position up
      to `p` where the rest of the regex can match, and nothing is found exactly when
      the rest matches at no position after `from`'s first space. */
  lemma TrySpacesIsLongest(s: string, tp: TablePattern, from: nat, p: nat)
    requires from + 4 < p <= |s|
    ensures TrySpaces(s, tp, from, p).None? <==> forall o :: from + 4 < o <= p ==> TryOpenings(s, tp, from, o).None?
    ensures var c := TrySpaces(s, tp, from, p);
      c.Some? ==> TryOpenings(s, tp, from, Opening(c.value)) == c
    ensures var c := TrySpaces(s, tp, from, p);
      c.Some? ==> forall o :: Opening(c.value) < o <= p ==> TryOpenings(s, tp, from, o).None?
  {
    forall o: nat | o <= |s|
      ensures OpeningAttempt(s, tp, from)(o) == TryOpenings(s, tp, from, o)
    {
    }
  }

  /** The table regex matches at `i` exactly when some well-formed capture starts
      there; the match found keeps the longest run of whitespace after `from`, as the
      greedy `\s+` does. */
  lemma TableMatchAtIsComplete(s: string, tp: TablePattern, i: nat)
    ensures TableMatchAt(s, tp, i).Some? <==> exists c: Capture :: c.from == i && WellFormedCapture(s, tp, c)
    ensures TableMatchAt(s, tp, i).Some? ==>
      forall c: Capture :: c.from == i && WellFormedCapture(s, tp, c) ==> Opening(c) <= Opening(TableMatchAt(s, tp, i).value)
  {
    forall c: Capture | c.from == i && WellFormedCapture(s, tp, c)
      ensures TableMatchAt(s, tp, i).Some? && Opening(c) <= Opening(TableMatchAt(s, tp, i).value)
    {
      CaptureFound(s, tp, c);
    }
  }

  /** A well-formed capture is found, or one whose whitespace run is at least as long. */
  lemma CaptureFound(s: string, tp: TablePattern, c: Capture)
    requires WellFormedCapture(s, tp, c)
    ensures TableMatchAt(s, tp, c.from).Some? && Opening(c) <= Opening(TableMatchAt(s, tp, c.from).value)
  {
    var i := c.from;
    var p := RunEnd(s, i + 4, IsSpace);
    var o: nat := Opening(c);
    assert o <= p;
    TableMatchAtSpaces(s, tp, i);
    TrySpacesIsLongest(s, tp, i, p);
    CaptureOpens(s, tp, c);
  }

  /** After a word-bounded `from` and at least one whitespace character, the table
      regex is the greedy `\s+` and what follows it. */
  lemma TableMatchAtSpaces(s: string, tp: TablePattern, i: nat)
    requires Boundary(s, i) && CiAt(s, i, "from") && RunEnd(s, i + 4, IsSpace) > i + 4
    ensures TableMatchAt(s, tp, i) == TrySpaces(s, tp, i, RunEnd(s, i + 4, IsSpace))
  {
  }

  /** With group 1 starting where a well-formed capture has it, the rest of the regex
      matches. */
  lemma CaptureOpens(s: string, tp: TablePattern, c: Capture)
    requires WellFormedCapture(s, tp, c)
    ensures TryOpenings(s, tp, c.from, Opening(c)).Some?
  {
    var o: nat := Opening(c);
    TryOpeningsPrefersQuote(s, tp, c.from, o);
    assert CanClose(s, c.patEnd, c.quote);
    assert StartCanClose(s, tp, c.patStart, c.quote);
    if c.quote.Some? {
      assert CanFormGroup(s, tp, o + 1, Some(s[o]));
    } else {
      assert CanFormGroup(s, tp, o, None);
    }
  }

  /** `re.search` with the table regex built around `tp`: the leftmost match. */
  function TableSearch(s: string, tp: TablePattern): (r: Option<Found<Capture>>)
    ensures r.Some? ==> r.value.at <= |s| && TableMatchAt(s, tp, r.value.at) == Some(r.value.value)
    ensures r.Some? ==> forall k :: 0 <= k < r.value.at ==> TableMatchAt(s, tp, k).None?
    ensures r.None? ==> forall k :: 0 <= k <= |s| ==> TableMatchAt(s, tp, k).None?
  {
    var attempt := (k: nat) => TableMatchAt(s, tp, k);
    var r := FirstSome(attempt, 0, |s| + 1);
    assert forall k: nat :: attempt(k) == TableMatchAt(s, tp, k);
    r
  }

  /** The loop over `PHONE_TABLES`: the first entry (`at`) whose regex matches. */
  function TableStage(s: string): (r: Option<Found<Found<Capture>>>)
    ensures r.Some? ==> r.value.at < |PhoneTables| && TableSearch(s, PhoneTables[r.value.at]) == Some(r.value.value)
    ensures r.Some? ==> forall j :: 0 <= j < r.value.at ==> TableSearch(s, PhoneTables[j]).None?
    ensures r.None? ==> forall j :: 0 <= j < |PhoneTables| ==> TableSearch(s, PhoneTables[j]).None?
  {
    var attempt := (j: nat) => if j < |PhoneTables| then TableSearch(s, PhoneTables[j]) else None;
    var r := FirstSome(attempt, 0, |PhoneTables|);
    assert forall j: nat :: j < |PhoneTables| ==> attempt(j) == TableSearch(s, PhoneTables[j]);
    r
  }

  // ---------------------------------------------------------------------------
  // find_phone_pattern_in_query
  // ---------------------------------------------------------------------------

  /** Every column pattern spells a lower-case word. */
  lemma PhonePatternsWellFormed()
    ensures forall p <- PhonePatterns :: IsLowerWord(p.token)
  {
    forall j | 0 <= j < |PhonePatterns| ensures IsLowerWord(PhonePatterns[j].token) {
      PhonePatternWellFormed(j);
    }
  }

  lemma PhonePatternWellFormed(j: nat)
    requires j < |PhonePatterns|
    ensures IsLowerWord(PhonePatterns[j].token)
  {
    if j < 5 {
      TokensLowerA();
    } else if j < 10 {
      TokensLowerB();
    } else if j < 13 {
      TokensLowerC();
    } else if j < 15 {
      TokensLowerD();
    } else {
      TokensLowerE();
    }
  }

  // The tokens checked a few at a time: literal strings are costly for the solver.
  lemma TokensLowerA() ensures forall j :: 0 <= j < 5 ==> IsLowerWord(PhonePatterns[j].token) {}
  lemma TokensLowerB() ensures forall j :: 5 <= j < 10 ==> IsLowerWord(PhonePatterns[j].token) {}
  lemma TokensLowerC() ensures forall j :: 10 <= j < 13 ==> IsLowerWord(PhonePatterns[j].token) {}
  lemma TokensLowerD() ensures forall j :: 13 <= j < 15 ==> IsLowerWord(PhonePatterns[j].token) {}
  lemma TokensLowerE() ensures forall j :: 15 <= j < 19 ==> IsLowerWord(PhonePatterns[j].token) {}

  /** Every table pattern is well formed. */
  lemma PhoneTablesWellFormed()
    ensures forall tp <- PhoneTables :: WellFormedTable(tp)
  {
    forall j | 0 <= j < |PhoneTables| ensures WellFormedTable(PhoneTables[j]) {
    }
  }

  /** The prefix every table-fallback result carries. */
  const SelectStarFrom := "SELECT * from "

  /** `find_phone_pattern_in_query`: `None` for an empty query or one without a whole
      word `select`; otherwise the text of the leftmost match of the first column
      pattern that matches; otherwise, for a `select *` query, `SELECT * from `
      followed by group 2 of the first table regex that matches. */
  function FindPhonePattern(query: string): (r: Option<string>)
    ensures r.Some? ==> |r.value| > 0
  {
    if query == [] then None
    else if ColumnSearch(Lower(query), SelectWord).None? then None
    else match ColumnStage(query)
      case Some(hit) =>
        var m := hit.value;
        PhonePatternsWellFormed();
        assert PhonePatterns[hit.at] in PhonePatterns;
        Some(query[m.at..m.value])
      case None =>
        if !HasSelectStar(Lower(query)) then None
        else match TableStage(query)
          case Some(hit) =>
            var c := hit.value.value;
            Some(SelectStarFrom + query[c.open..c.close])
          case None => None
  }

  /** A result needs a non-empty query with a whole word `select` in it, in any case. */
  lemma ResultNeedsSelect(q: string)
    ensures FindPhonePattern(q).Some? ==> |q| > 0 && MatchesSomewhere(q, SelectWord)
  {
    SelectGuardIsWholeWord(q);
  }

  /** Once the guard passes, the result is the leftmost whole word that fits the first
      entry of `PHONE_PATTERNS` fitting any word, in its original case; later entries
      are never consulted. */
  lemma ColumnResultIsFirstFit(q: string, j: nat, i: nat)
    requires MatchesSomewhere(q, SelectWord)
    requires j < |PhonePatterns| && forall j' :: 0 <= j' < j ==> !MatchesSomewhere(q, PhonePatterns[j'])
    requires i <= |q| && WordStart(q, i) && Fits(PhonePatterns[j], WordFrom(q, i))
    requires forall k :: 0 <= k < i ==> !(WordStart(q, k) && Fits(PhonePatterns[j], WordFrom(q, k)))
    ensures FindPhonePattern(q) == Some(WordFrom(q, i))
  {
    SelectGuardIsWholeWord(q);
    ColumnStageFindsWord(q);
    assert MatchesSomewhere(q, PhonePatterns[j]);
    var hit := ColumnStage(q).value;
    assert hit.at == j;
    assert hit.value.at == i;
  }

  /** `select\s+\*` finds the same places in the query and in its lower-case form. */
  lemma SelectStarLower(q: string)
    ensures HasSelectStar(Lower(q)) <==> HasSelectStar(q)
  {
    forall i | 0 <= i < |q| ensures SelectStarAt(Lower(q), i) <==> SelectStarAt(q, i) {
      SelectStarAtLower(q, i);
    }
  }

  /** `select\s+\*` at one place of the query and of its lower-case form. */
  lemma SelectStarAtLower(q: string, i: nat)
    ensures SelectStarAt(Lower(q), i) <==> SelectStarAt(q, i)
  {
    CiAtLower(q, i, "select");
    if i + 6 <= |q| {
      RunEndLower(q, i + 6);
      var j := RunEnd(q, i + 6, IsSpace);
      if j < |q| {
        assert Lower(q)[j] == LowerChar(q[j]);
      }
    }
  }

  /** Every character of group 2 is in `[^\s,`"]`, except the TAB that the first
      table pattern demands at the start of its own match. */
  lemma CaptureTokenShape(s: string, tp: TablePattern, c: Capture)
    requires WellFormedTable(tp) && WellFormedCapture(s, tp, c)
    ensures c.open <= c.close <= |s|
    ensures forall k :: c.open <= k < c.close ==> IsTokenChar(s[k]) || (k == c.patStart && tp.lead.Tab? && s[k] == '\t')
  {
  }

  /** A token opened by a backtick or a double quote is closed by the same character:
      without a delimiter in group 1 the token follows the `\s+` directly. */
  lemma CaptureQuotesMatch(s: string, tp: TablePattern, c: Capture)
    requires WellFormedCapture(s, tp, c)
    ensures 0 < c.open <= |s|
    ensures IsQuote(s[c.open - 1]) ==> c.close < |s| && s[c.close] == s[c.open - 1]
  {
  }

  /** The result of the table fallback: only reached when no entry of `PHONE_PATTERNS`
      fits any word and the query has `select`, spaces and `*`; it is `SELECT * from `
      followed by group 2 of a match of one of the table regexes. */
  lemma TableResult(q: string)
    requires FindPhonePattern(q).Some?
    requires forall j :: 0 <= j < |PhonePatterns| ==> !MatchesSomewhere(q, PhonePatterns[j])
    ensures HasSelectStar(q)
    ensures exists j: nat, c: Capture ::
      && j < |PhoneTables| && WellFormedCapture(q, PhoneTables[j], c) && c.open <= c.close <= |q|
      && FindPhonePattern(q).value == SelectStarFrom + q[c.open..c.close]
  {
    ColumnStageFindsWord(q);
    SelectStarLower(q);
    var hit := TableStage(q).value;
    var c := hit.value.value;
    assert WellFormedCapture(q, PhoneTables[hit.at], c);
  }

  /** Conversely, once the guard passes, no entry of `PHONE_PATTERNS` fits any word and
      the query has `select`, spaces and `*`, the result is `SELECT * from ` followed by
      group 2 of the leftmost match of the first table regex that matches anywhere. */
  lemma TableResultIsFirstMatch(q: string, j: nat)
    requires MatchesSomewhere(q, SelectWord) && HasSelectStar(q)
    requires forall j' :: 0 <= j' < |PhonePatterns| ==> !MatchesSomewhere(q, PhonePatterns[j'])
    requires j < |PhoneTables| && forall j' :: 0 <= j' < j ==> TableSearch(q, PhoneTables[j']).None?
    requires TableSearch(q, PhoneTables[j]).Some?
    ensures var c := TableSearch(q, PhoneTables[j]).value.value;
      c.open <= c.close <= |q| && FindPhonePattern(q) == Some(SelectStarFrom + q[c.open..c.close])
  {
    FallbackReached(q);
    var hit := TableStage(q).value;
    assert hit.at == j;
  }

  /** With the guard passed, no column word and `select\s+\*` present, the classifier
      reaches the loop over `PHONE_TABLES`. */
  lemma FallbackReached(q: string)
    requires MatchesSomewhere(q, SelectWord) && HasSelectStar(q)
    requires forall j' :: 0 <= j' < |PhonePatterns| ==> !MatchesSomewhere(q, PhonePatterns[j'])
    ensures TableStage(q).None? ==> FindPhonePattern(q) == None
    ensures TableStage(q).Some? ==> var c := TableStage(q).value.value.value;
      c.open <= c.close <= |q| && FindPhonePattern(q) == Some(SelectStarFrom + q[c.open..c.close])
  {
    assert q != [] && ColumnSearch(Lower(q), SelectWord).Some? by {
      SelectGuardIsWholeWord(q);
    }
    assert ColumnStage(q).None? by {
      ColumnStageFindsWord(q);
    }
    assert HasSelectStar(Lower(q)) by {
      SelectStarLower(q);
    }
  }
}
