/** Worked queries: the classifier's answer on a few concrete texts, derived from
    the general lemmas about whole-word matching and the table fallback. */
module WorkedQueries {
  import opened Text
  import opened Classifier

  /** One mismatching character rules out an occurrence of a literal. */
  lemma MismatchAt(s: string, i: nat, w: string, k: nat)
    requires k < |w| && (i + k < |s| ==> !CiEq(s[i + k], w[k]))
    ensures !CiAt(s, i, w)
  {
  }

  /** No whole word of `update phone` is `select`. */
  lemma UpdateHasNoSelect(q: string)
    requires q == "update phone"
    ensures forall i :: 0 <= i <= |q| ==> !(WordStart(q, i) && Fits(SelectWord, WordFrom(q, i)))
  {
    forall i | 0 <= i <= |q| ensures !(WordStart(q, i) && Fits(SelectWord, WordFrom(q, i))) {
      MismatchAt(q, i, "select", 0);
      NoTokenNoFit(q, SelectWord, i);
    }
  }

  /** `update phone` names a phone column but has no whole word `select`, so no result. */
  lemma UpdateHasNoResult()
    ensures FindPhonePattern("update phone") == None
  {
    var q := "update phone";
    UpdateHasNoSelect(q);
    ResultNeedsSelect(q);
  }

  /** The words of a query `select <word>`. */
  lemma SelectAndOneWord(q: string)
    requires 7 < |q| && q[..7] == "select " && forall k :: 7 <= k < |q| ==> IsWordChar(q[k])
    ensures forall i :: 0 <= i <= |q| && WordStart(q, i) ==> i == 0 || i == 7
    ensures WordStart(q, 0) && WordStart(q, 7)
    ensures RunEnd(q, 0, IsWordChar) == 6 && RunEnd(q, 7, IsWordChar) == |q|
    ensures WordFrom(q, 0) == "select" && WordFrom(q, 7) == q[7..]
  {
    assert forall k :: 0 <= k < 7 ==> q[k] == "select "[k];
    RunEndAt(q, 0, 6, IsWordChar);
    RunEndAt(q, 7, |q|, IsWordChar);
  }

  /** A query that starts with `select * ` passes both the guard and the `select\s+\*` test. */
  lemma SelectStarPrefix(q: string)
    requires 9 <= |q| && q[..9] == "select * "
    ensures MatchesSomewhere(q, SelectWord) && HasSelectStar(q)
  {
    assert forall k :: 0 <= k < 9 ==> q[k] == "select * "[k];
    RunEndAt(q, 0, 6, IsWordChar);
    RunEndAt(q, 6, 7, IsSpace);
    assert WordFrom(q, 0) == "select";
    assert SelectStarAt(q, 0);
  }

  /** The worked `select *` queries start with `select * `. */
  lemma StartsWithSelectStar(q: string)
    requires q == "select * from contacts" || q == "select * from \to_contact"
    ensures MatchesSomewhere(q, SelectWord) && HasSelectStar(q)
  {
    assert q[..9] == "select * ";
    SelectStarPrefix(q);
  }

  /** The whole word at `i` is `s[i..e]` when word characters run exactly from `i` to `e`. */
  lemma WordIs(s: string, i: nat, e: nat)
    requires i <= e <= |s| && (forall k :: i <= k < e ==> IsWordChar(s[k])) && (e == |s| || !IsWordChar(s[e]))
    ensures WordFrom(s, i) == s[i..e]
  {
    RunEndAt(s, i, e, IsWordChar);
  }

  /** A word fits a column pattern only when it starts with the token's first letter
      and has the token's length (or, for the suffixed form, is longer by two or more). */
  lemma WordShape(p: ColumnPattern, w: string)
    requires |p.token| > 0 && Fits(p, w)
    ensures |w| > 0 && CiEq(w[0], p.token[0])
    ensures |w| == |p.token| || (p.WordOrSuffixed? && |w| > |p.token| + 1)
  {
    if p.WordOrSuffixed? && !CiEqual(w, p.token) {
      assert CiEq(w[0], (p.token + "_")[0]);
    }
  }

  /** No entry before the `j`-th fits `w`, judged by first letter and length. */
  lemma NoEarlierEntryFits(w: string, j: nat)
    requires |w| > 0 && j <= |PhonePatterns|
    requires forall j' :: 0 <= j' < j ==>
      var t := PhonePatterns[j'].token;
      !CiEq(w[0], t[0]) || (|w| != |t| && !(PhonePatterns[j'].WordOrSuffixed? && |w| > |t| + 1))
    ensures forall j' :: 0 <= j' < j ==> !Fits(PhonePatterns[j'], w)
  {
    forall j' | 0 <= j' < j ensures !Fits(PhonePatterns[j'], w) {
      PhonePatternWellFormed(j');
      if Fits(PhonePatterns[j'], w) {
        WordShape(PhonePatterns[j'], w);
      }
    }
  }

  /** No entry of `PHONE_PATTERNS` fits the SQL keywords and column name of the
      worked queries. */
  lemma NoEntryFitsKeyword(w: string)
    requires w == "select" || w == "name" || w == "from"
    ensures forall j :: 0 <= j < |PhonePatterns| ==> !Fits(PhonePatterns[j], w)
  {
    // One call per literal: with all the words in one context the proof is much costlier.
    if w == "select" {
      NoEarlierEntryFits(w, |PhonePatterns|);
    } else if w == "name" {
      NoEarlierEntryFits(w, |PhonePatterns|);
    } else {
      NoEarlierEntryFits(w, |PhonePatterns|);
    }
  }

  /** No entry of `PHONE_PATTERNS` fits the table names of the worked queries. */
  lemma NoEntryFitsTableWord(w: string)
    requires w == "contacts" || w == "o_contact"
    ensures forall j :: 0 <= j < |PhonePatterns| ==> !Fits(PhonePatterns[j], w)
  {
    // One call per literal, as above.
    if w == "contacts" {
      NoEarlierEntryFits(w, |PhonePatterns|);
    } else {
      NoEarlierEntryFits(w, |PhonePatterns|);
    }
  }

  /** On `select <word>` the classifier returns the word when the `j`-th entry is the
      first to fit it. */
  lemma SelectOneWordResult(q: string, j: nat)
    requires 7 < |q| && q[..7] == "select " && forall k :: 7 <= k < |q| ==> IsWordChar(q[k])
    requires j < |PhonePatterns| && Fits(PhonePatterns[j], q[7..])
    requires forall j' :: 0 <= j' < j ==> !Fits(PhonePatterns[j'], q[7..])
    ensures FindPhonePattern(q) == Some(q[7..])
  {
    SelectAndOneWord(q);
    NoEntryFitsKeyword("select");
    assert Fits(SelectWord, WordFrom(q, 0));
    ColumnResultIsFirstFit(q, j, 7);
  }

  /** `telephone` is first fitted by the tenth entry, `phone_number` by the seventh. */
  lemma FirstEntryFitting(w: string, j: nat)
    requires (w == "telephone" && j == 9) || (w == "phone_number" && j == 6)
    ensures j < |PhonePatterns| && Fits(PhonePatterns[j], w)
    ensures forall j' :: 0 <= j' < j ==> !Fits(PhonePatterns[j'], w)
  {
    if j == 9 {
      NoEarlierEntryFits(w, 9);
    } else {
      NoEarlierEntryFits(w, 6);
    }
  }

  /** `tel` does not match inside `telephone`: the whole word is `telephone`, which
      the tenth entry matches. */
  lemma TelephoneIsNotTel()
    ensures FindPhonePattern("select telephone") == Some("telephone")
  {
    var q := "select telephone";
    assert q[7..] == "telephone";
    FirstEntryFitting(q[7..], 9);
    SelectOneWordResult(q, 9);
  }

  /** `phone` does not match inside `phone_number`: the whole word is `phone_number`,
      which the seventh entry matches. */
  lemma PhoneNumberIsNotPhone()
    ensures FindPhonePattern("select phone_number") == Some("phone_number")
  {
    var q := "select phone_number";
    assert q[7..] == "phone_number";
    FirstEntryFitting(q[7..], 6);
    SelectOneWordResult(q, 6);
  }

  /** `to_contact_orig` is a whole word that the first entry matches, returned whole. */
  lemma SuffixedToContactIsWhole()
    ensures FindPhonePattern("select to_contact_orig") == Some("to_contact_orig")
  {
    var q := "select to_contact_orig";
    var w := q[7..];
    assert w == "to_contact_orig";
    assert CiAt(w, 0, "to_contact_");
    SelectOneWordResult(q, 0);
  }

  /** A query with no `*` never reaches the table regexes. */
  lemma NoStarNoSelectStar(q: string)
    requires forall k :: 0 <= k < |q| ==> q[k] != '*'
    ensures !HasSelectStar(q)
  {
  }

  /** When no entry of `PHONE_PATTERNS` fits a word and there is no `select\s+\*`,
      the classifier gives nothing. */
  lemma NoColumnNoStarNoResult(q: string, starts: seq<nat>)
    requires forall i :: 0 <= i <= |q| && WordStart(q, i) ==> i in starts
    requires forall i <- starts :: i < |q| && forall j :: 0 <= j < |PhonePatterns| ==> !Fits(PhonePatterns[j], WordFrom(q, i))
    requires !HasSelectStar(q)
    ensures FindPhonePattern(q) == None
  {
    ColumnStageFindsWord(q);
    SelectStarLower(q);
  }

  /** `select name`: no entry fits `name` and there is no `*`, so no result. */
  lemma NameHasNoResult()
    ensures FindPhonePattern("select name") == None
  {
    var q := "select name";
    SelectAndOneWord(q);
    assert q[7..] == "name";
    NoEntryFitsKeyword("select");
    NoEntryFitsKeyword("name");
    NoStarNoSelectStar(q);
    NoColumnNoStarNoResult(q, [0, 7]);
  }

  /** The table regex needs a word-bounded `from` where its match starts. */
  lemma NoFromNoTableMatch(s: string, tp: TablePattern, k: nat)
    requires !CiAt(s, k, "from")
    ensures TableMatchAt(s, tp, k).None?
  {
  }

  /** The first table regex needs a TAB, so a query without one never matches it. */
  lemma NoTabNoFirstTable(s: string)
    requires forall k :: 0 <= k < |s| ==> s[k] != '\t'
    ensures TableSearch(s, PhoneTables[0]).None?
  {
    forall r | 0 <= r <= |s| ensures TablePatternEnds(s, PhoneTables[0], r) == [] {
    }
  }

  /** The first greedy run stops at `k` when the table pattern and the rest of group 2
      match from there and the pattern can start nowhere after it. */
  lemma RightmostStart(s: string, tp: TablePattern, q: nat, r: nat, quote: Option<char>, tail: Tail)
    requires TokenRun(s, q, r) && q <= r
    requires TryEnds(s, TablePatternEnds(s, tp, q), quote) == Some(tail)
    requires forall k :: q < k <= r ==> TablePatternEnds(s, tp, k) == []
    ensures TryStarts(s, tp, q, r, quote) == Some(Group(q, tail.patEnd, tail.close))
  {
    var attempt := StartAttempt(s, tp, quote);
    forall k: nat | q < k <= r ensures attempt(k).None? {
      assert TablePatternEnds(s, tp, k) == [];
    }
    assert attempt(q) == Some(tail);
    var f := LastSome(attempt, q, r);
    assert f.Some? && f.value.at == q;
  }

  /** Where the table pattern can start nowhere in the first greedy run, group 2
      cannot be formed. */
  lemma TryStartsNone(s: string, tp: TablePattern, q: nat, r: nat, quote: Option<char>)
    requires TokenRun(s, q, r)
    requires forall k :: q <= k <= r ==> TablePatternEnds(s, tp, k) == []
    ensures TryStarts(s, tp, q, r, quote).None?
  {
    assert TryEnds(s, [], quote).None?;
  }

  /** The first table pattern can only start at a TAB. */
  lemma NoTabNoStart(s: string, r: nat)
    requires !(r < |s| && s[r] == '\t')
    ensures TablePatternEnds(s, PhoneTables[0], r) == []
  {
  }

  /** `re.search` returns the leftmost match: a match at `i` with none before it. */
  lemma TableSearchFinds(s: string, tp: TablePattern, i: nat, c: Capture)
    requires i <= |s| && TableMatchAt(s, tp, i) == Some(c)
    requires forall k :: 0 <= k < i ==> TableMatchAt(s, tp, k).None?
    ensures TableSearch(s, tp) == Some(Found(i, c))
  {
    var r := TableSearch(s, tp);
    assert r.Some?;
    assert r.value.at == i;
  }

  /** Where the whole words of `select * from contacts` start. */
  lemma ContactsStarts(q: string)
    requires q == "select * from contacts"
    ensures forall i :: 0 <= i <= |q| && WordStart(q, i) ==> i in [0, 9, 14]
    ensures WordStart(q, 0)
  {
  }

  /** No entry of `PHONE_PATTERNS` fits `select`, `from` or `contacts`. */
  lemma ContactsNoEntryFits(q: string, i: nat)
    requires q == "select * from contacts" && i in [0, 9, 14]
    ensures i < |q| && forall j :: 0 <= j < |PhonePatterns| ==> !Fits(PhonePatterns[j], WordFrom(q, i))
  {
    if i == 0 {
      assert WordFrom(q, 0) == "select" by { RunEndAt(q, 0, 6, IsWordChar); }
      NoEntryFitsKeyword(WordFrom(q, 0));
    } else if i == 9 {
      assert WordFrom(q, 9) == "from" by { RunEndAt(q, 9, 13, IsWordChar); }
      NoEntryFitsKeyword(WordFrom(q, 9));
    } else {
      assert WordFrom(q, 14) == "contacts" by { RunEndAt(q, 14, 22, IsWordChar); }
      NoEntryFitsTableWord(WordFrom(q, 14));
    }
  }

  /** `\bcontacts?\b` cannot start inside `contacts` or after it. */
  lemma ContactsNoInnerStart(q: string)
    requires q == "select * from contacts"
    ensures forall k :: 14 < k <= 22 ==> TablePatternEnds(q, PhoneTables[1], k) == []
  {
  }

  /** `\bcontacts?\b` fits at the start of `contacts`, taking the optional `s`. */
  lemma ContactsStartFits(q: string)
    requires q == "select * from contacts"
    ensures TablePatternEnds(q, PhoneTables[1], 14) == [22]
  {
    var tp := PhoneTables[1];
    assert tp.stem == "contact" && tp.optional == Some('s');
    assert CiAt(q, 14, "contact");
    assert Boundary(q, 14) && !Boundary(q, 21) && CiEq(q[21], 's') && Boundary(q, 22);
    assert LeadAt(q, tp, 14);
    LongerFormEnds(q, tp, 14);
  }

  /** A table pattern whose lead holds at `r`, followed by the stem and then the
      optional character and a boundary, ends only after the optional character. */
  lemma LongerFormEnds(s: string, tp: TablePattern, r: nat)
    requires LeadAt(s, tp, r) && (tp.lead.AtBoundary? ==> Boundary(s, r))
    requires tp.optional.Some? && CiAt(s, StemStart(tp, r), tp.stem)
    requires var k := StemStart(tp, r) + |tp.stem|;
      k < |s| && CiEq(s[k], tp.optional.value) && !Boundary(s, k) && Boundary(s, k + 1)
    ensures TablePatternEnds(s, tp, r) == [StemStart(tp, r) + |tp.stem| + 1]
  {
  }

  /** `\bcontacts?\b` is tried at each position of `contacts` from its end down to its
      start, and fits there as the whole word `contacts`. */
  lemma ContactsTableStarts(q: string)
    requires q == "select * from contacts"
    ensures TokenRun(q, 14, 22)
    ensures TryStarts(q, PhoneTables[1], 14, 22, None) == Some(Group(14, 22, 22))
  {
    var tp := PhoneTables[1];
    assert TokenRun(q, 14, 22);
    ContactsNoInnerStart(q);
    ContactsStartFits(q);
    assert CloseFrom(q, 22, RunEnd(q, 22, IsTokenChar), None) == Some(22);
    assert TryEnds(q, [22], None) == Some(Tail(22, 22));
    RightmostStart(q, tp, 14, 22, None, Tail(22, 22));
  }

  /** The first table regex finds nothing in `select * from contacts`: it has no TAB. */
  lemma ContactsFirstTable(q: string)
    requires q == "select * from contacts"
    ensures TableSearch(q, PhoneTables[0]).None?
  {
    NoTabNoFirstTable(q);
  }

  /** The second table regex matches `select * from contacts` at `from`, with group 2 `contacts`. */
  lemma ContactsSecondTable(q: string)
    requires q == "select * from contacts"
    ensures TableSearch(q, PhoneTables[1]) == Some(Found(9, Capture(9, None, 14, 14, 22, 22)))
  {
    ContactsNoEarlierFrom(q);
    ContactsMatchAtFrom(q);
    TableSearchFinds(q, PhoneTables[1], 9, Capture(9, None, 14, 14, 22, 22));
  }

  /** No `from` starts before position 9 of `select * from contacts`. */
  lemma ContactsNoEarlierFrom(q: string)
    requires q == "select * from contacts"
    ensures forall k :: 0 <= k < 9 ==> TableMatchAt(q, PhoneTables[1], k).None?
  {
    forall k | 0 <= k < 9 ensures TableMatchAt(q, PhoneTables[1], k).None? {
      MismatchAt(q, k, "from", 0);
      NoFromNoTableMatch(q, PhoneTables[1], k);
    }
  }

  /** The characters around `from` in `select * from contacts`. */
  lemma ContactsAroundFrom(q: string)
    requires q == "select * from contacts"
    ensures Boundary(q, 9) && CiAt(q, 9, "from") && !IsQuote(q[14])
  {
  }

  /** The space after `from` and the word `contacts` as runs of characters. */
  lemma ContactsRuns(q: string)
    requires q == "select * from contacts"
    ensures RunEnd(q, 13, IsSpace) == 14 && RunEnd(q, 14, IsTokenChar) == 22
  {
    assert RunEnd(q, 13, IsSpace) == 14 by { RunEndAt(q, 13, 14, IsSpace); }
    RunEndAt(q, 14, 22, IsTokenChar);
  }

  /** At `from`, one space, no delimiter, and group 2 is the whole word `contacts`. */
  lemma ContactsMatchAtFrom(q: string)
    requires q == "select * from contacts"
    ensures TableMatchAt(q, PhoneTables[1], 9) == Some(Capture(9, None, 14, 14, 22, 22))
  {
    var tp := PhoneTables[1];
    var c := Capture(9, None, 14, 14, 22, 22);
    ContactsAroundFrom(q);
    ContactsRuns(q);
    ContactsTableStarts(q);
    assert TryOpenings(q, tp, 9, 14) == Some(c);
    assert TrySpaces(q, tp, 9, 14) == Some(c);
  }

  /** No entry of `PHONE_PATTERNS` fits any word of `select * from contacts`. */
  lemma ContactsNoColumn(q: string)
    requires q == "select * from contacts"
    ensures forall j :: 0 <= j < |PhonePatterns| ==> !MatchesSomewhere(q, PhonePatterns[j])
  {
    ContactsStarts(q);
    forall i <- [0, 9, 14] ensures i < |q| && forall j :: 0 <= j < |PhonePatterns| ==> !Fits(PhonePatterns[j], WordFrom(q, i)) {
      ContactsNoEntryFits(q, i);
    }
  }

  /** The classifier's answer on `select * from contacts`, through the table fallback. */
  lemma ContactsResult(q: string)
    requires q == "select * from contacts"
    ensures FindPhonePattern(q) == Some(SelectStarFrom + q[14..22])
  {
    ContactsNoColumn(q);
    StartsWithSelectStar(q);
    ContactsFirstTable(q);
    ContactsSecondTable(q);
    assert forall j' :: 0 <= j' < 1 ==> TableSearch(q, PhoneTables[j']).None?;
    TableResultIsFirstMatch(q, 1);
  }

  /** `select * from contacts`: no column word, so the table fallback answers. */
  lemma ContactsTableFallback()
    ensures FindPhonePattern("select * from contacts") == Some("SELECT * from contacts")
  {
    var q := "select * from contacts";
    assert SelectStarFrom + q[14..22] == "SELECT * from contacts";
    ContactsResult(q);
  }

  // ---------------------------------------------------------------------------
  // `select * from \to_contact`: the first table entry is TAB, `o_contac`, `t?`
  // ---------------------------------------------------------------------------

  /** Where the whole words of `select * from \to_contact` start: the TAB is not a
      word character, so a word starts at the `o` after it. */
  lemma TabStarts(q: string)
    requires q == "select * from \to_contact"
    ensures forall i :: 0 <= i <= |q| && WordStart(q, i) ==> i in [0, 9, 15]
    ensures WordStart(q, 0)
  {
  }

  /** No entry of `PHONE_PATTERNS` fits `select`, `from` or `o_contact`. */
  lemma TabNoEntryFits(q: string, i: nat)
    requires q == "select * from \to_contact" && i in [0, 9, 15]
    ensures i < |q| && forall j :: 0 <= j < |PhonePatterns| ==> !Fits(PhonePatterns[j], WordFrom(q, i))
  {
    if i == 0 {
      WordIs(q, 0, 6);
      assert q[0..6] == "select";
      NoEntryFitsKeyword(WordFrom(q, 0));
    } else if i == 9 {
      WordIs(q, 9, 13);
      assert q[9..13] == "from";
      NoEntryFitsKeyword(WordFrom(q, 9));
    } else {
      WordIs(q, 15, 24);
      assert q[15..24] == "o_contact";
      NoEntryFitsTableWord(WordFrom(q, 15));
    }
  }

  /** No entry of `PHONE_PATTERNS` fits any word of `select * from \to_contact`. */
  lemma TabNoColumn(q: string)
    requires q == "select * from \to_contact"
    ensures forall j :: 0 <= j < |PhonePatterns| ==> !MatchesSomewhere(q, PhonePatterns[j])
  {
    TabStarts(q);
    forall i <- [0, 9, 15] ensures i < |q| && forall j :: 0 <= j < |PhonePatterns| ==> !Fits(PhonePatterns[j], WordFrom(q, i)) {
      TabNoEntryFits(q, i);
    }
  }

  /** No `from` starts before position 9 of `select * from \to_contact`. */
  lemma TabNoEarlierFrom(q: string)
    requires q == "select * from \to_contact"
    ensures forall k :: 0 <= k < 9 ==> TableMatchAt(q, PhoneTables[0], k).None?
  {
    forall k | 0 <= k < 9 ensures TableMatchAt(q, PhoneTables[0], k).None? {
      MismatchAt(q, k, "from", 0);
      NoFromNoTableMatch(q, PhoneTables[0], k);
    }
  }

  /** The characters around `from` in `select * from \to_contact`. */
  lemma TabAroundFrom(q: string)
    requires q == "select * from \to_contact"
    ensures Boundary(q, 9) && CiAt(q, 9, "from") && !IsQuote(q[14]) && !IsQuote(q[15])
  {
  }

  /** The runs after `from`: `\s+` takes the space and the TAB, and the token after
      them is `o_contact`. */
  lemma TabRuns(q: string)
    requires q == "select * from \to_contact"
    ensures RunEnd(q, 13, IsSpace) == 15 && RunEnd(q, 14, IsTokenChar) == 14 && RunEnd(q, 15, IsTokenChar) == 24
  {
    RunEndAt(q, 13, 15, IsSpace);
    RunEndAt(q, 15, 24, IsTokenChar);
  }

  /** With both blanks taken by `\s+`, the first table pattern cannot start in `o_contact`. */
  lemma TabAfterAllSpaces(q: string)
    requires q == "select * from \to_contact"
    ensures TokenRun(q, 15, 24) && TryStarts(q, PhoneTables[0], 15, 24, None).None?
  {
    assert TokenRun(q, 15, 24);
    forall k | 15 <= k <= 24 ensures TablePatternEnds(q, PhoneTables[0], k) == [] {
      NoTabNoStart(q, k);
    }
    TryStartsNone(q, PhoneTables[0], 15, 24, None);
  }

  /** At the TAB, the first table pattern reads `o_contac`, takes the optional `t` and ends. */
  lemma TabStartFits(q: string)
    requires q == "select * from \to_contact"
    ensures TablePatternEnds(q, PhoneTables[0], 14) == [24]
  {
    var tp := PhoneTables[0];
    assert tp.lead == Tab && tp.stem == "o_contac" && tp.optional == Some('t');
    assert CiAt(q, 15, "o_contac");
    assert q[14] == '\t' && !Boundary(q, 23) && CiEq(q[23], 't') && Boundary(q, 24);
    LongerFormEnds(q, tp, 14);
  }

  /** `\s+` gives back the TAB; group 2 is then the TAB and `o_contact`. */
  lemma TabMatchAtFrom(q: string)
    requires q == "select * from \to_contact"
    ensures TableMatchAt(q, PhoneTables[0], 9) == Some(Capture(9, None, 14, 14, 24, 24))
  {
    var tp := PhoneTables[0];
    var c := Capture(9, None, 14, 14, 24, 24);
    TabAroundFrom(q);
    TabRuns(q);
    TabAfterAllSpaces(q);
    TabStartFits(q);
    assert TryOpenings(q, tp, 9, 15).None?;
    assert CloseFrom(q, 24, RunEnd(q, 24, IsTokenChar), None) == Some(24);
    assert TryEnds(q, [24], None) == Some(Tail(24, 24));
    assert TryStarts(q, tp, 14, 14, None) == Some(Group(14, 24, 24));
    assert TryOpenings(q, tp, 9, 14) == Some(c);
    assert TrySpaces(q, tp, 9, 14) == Some(c);
    assert TrySpaces(q, tp, 9, 15) == Some(c);
  }

  /** The first table regex matches `select * from \to_contact` at `from`. */
  lemma TabFirstTable(q: string)
    requires q == "select * from \to_contact"
    ensures TableSearch(q, PhoneTables[0]) == Some(Found(9, Capture(9, None, 14, 14, 24, 24)))
  {
    TabNoEarlierFrom(q);
    TabMatchAtFrom(q);
    TableSearchFinds(q, PhoneTables[0], 9, Capture(9, None, 14, 14, 24, 24));
  }

  /** The classifier's answer on `select * from \to_contact`, through the first table entry. */
  lemma TabResult(q: string)
    requires q == "select * from \to_contact"
    ensures FindPhonePattern(q) == Some(SelectStarFrom + q[14..24])
  {
    TabNoColumn(q);
    StartsWithSelectStar(q);
    TabFirstTable(q);
    TableResultIsFirstMatch(q, 0);
  }

  /** `select * from <TAB>o_contact` is found by the first table entry, and the TAB is
      part of the table name returned. */
  lemma TabToContactTable()
    ensures FindPhonePattern("select * from \to_contact") == Some("SELECT * from \to_contact")
  {
    var q := "select * from \to_contact";
    assert q[14..24] == "\to_contact";
    assert SelectStarFrom + q[14..24] == "SELECT * from \to_contact";
    TabResult(q);
  }
}
