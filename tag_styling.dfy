/** The `str.replace` chain of `get_medicat_torrent_status_html` (main.py)
    that gives every table, header cell and data cell of the rendered table
    an inline style, because e-mail clients ignore style sheets. */
module TagStyling {
  import opened Wrappers
  import opened Text

  /** One substitution: occurrences of `pattern` become `replacement`. */
  datatype Rule = Rule(pattern: string, replacement: string)

  predicate NonEmptyPatterns(rules: seq<Rule>)
  {
    forall k :: 0 <= k < |rules| ==> |rules[k].pattern| > 0
  }

  /** The first rule, from index `k` on, whose pattern is a prefix of `s`. */
  function FirstRuleFrom(rules: seq<Rule>, s: string, k: nat): (r: Option<nat>)
    requires k <= |rules|
    decreases |rules| - k
    ensures r.Some? ==> k <= r.value < |rules| && IsPrefix(rules[r.value].pattern, s)
    ensures r.Some? ==> forall j :: k <= j < r.value ==> !IsPrefix(rules[j].pattern, s)
    ensures r.None? ==> forall j :: k <= j < |rules| ==> !IsPrefix(rules[j].pattern, s)
  {
    if k == |rules| then None
    else if IsPrefix(rules[k].pattern, s) then Some(k)
    else FirstRuleFrom(rules, s, k + 1)
  }

  function FirstRule(rules: seq<Rule>, s: string): Option<nat>
  {
    FirstRuleFrom(rules, s, 0)
  }

  /** A single left-to-right pass: where some rule's pattern starts, emit that
      rule's replacement and skip the pattern; otherwise copy one character. */
  function Rewrite(s: string, rules: seq<Rule>): string
    requires NonEmptyPatterns(rules)
    decreases |s|
  {
    if s == [] then []
    else
      match FirstRule(rules, s)
      case Some(k) => rules[k].replacement + Rewrite(s[|rules[k].pattern|..], rules)
      case None => [s[0]] + Rewrite(s[1..], rules)
  }

  /** `rep` before, between and after the characters of `s`. */
  function Interleave(s: string, rep: string): string
  {
    if s == [] then rep else rep + [s[0]] + Interleave(s[1..], rep)
  }

  /** Python's `s.replace(pat, rep)`: every non-overlapping occurrence, found
      left to right, is replaced; an empty pattern matches between all
      characters. */
  function Replace(s: string, pat: string, rep: string): string
  {
    if pat == [] then Interleave(s, rep) else Rewrite(s, [Rule(pat, rep)])
  }

  /** The inline style every table element receives. */
  const Style: string := StylePadding + StyleBorder + StyleCollapse
  const StylePadding: string := "padding: 3px; "
  const StyleBorder: string := "border: 1px solid black; "
  const StyleCollapse: string := "border-collapse: collapse;"

  const TableOpen: string := "<table>"
  const StyledTableOpen: string := "<table style=\"" + Style + "\">"
  const HeaderStyleOpen: string := "<th style=\""
  const StyledHeaderStyleOpen: string := "<th style=\"" + Style
  const HeaderOpen: string := "<th>"
  const StyledHeaderOpen: string := "<th style=\"" + Style + "\">"
  const DataStyleOpen: string := "<td style=\""
  const StyledDataStyleOpen: string := "<td style=\"" + Style
  const DataOpen: string := "<td>"
  const StyledDataOpen: string := "<td style=\"" + Style + "\">"

  /** The replace chain of main.py lines 84-89, in its order. */
  function StyleTable(html: string): string
  {
    var s1 := Replace(html, TableOpen, StyledTableOpen);
    var s2 := Replace(s1, HeaderStyleOpen, StyledHeaderStyleOpen);
    var s3 := Replace(s2, HeaderOpen, StyledHeaderOpen);
    var s4 := Replace(s3, DataStyleOpen, StyledDataStyleOpen);
    Replace(s4, DataOpen, StyledDataOpen)
  }

  /** The five substitutions as one rule set for a single pass. */
  function TagRules(): seq<Rule>
  {
    [Rule(TableOpen, StyledTableOpen), Rule(HeaderStyleOpen, StyledHeaderStyleOpen),
     Rule(HeaderOpen, StyledHeaderOpen), Rule(DataStyleOpen, StyledDataStyleOpen),
     Rule(DataOpen, StyledDataOpen)]
  }

  /** A tag-shaped string: it starts with `<` and has no other `<`. */
  predicate TagShaped(s: string)
  {
    |s| > 0 && s[0] == '<' && '<' !in s[1..]
  }

  /** Rules whose patterns and replacements are all tag-shaped, such as the five here. */
  predicate TagRuleSet(rules: seq<Rule>)
  {
    forall k :: 0 <= k < |rules| ==> TagShaped(rules[k].pattern) && TagShaped(rules[k].replacement)
  }

  lemma {:induction false} RewriteKeepsTextWithoutTags(x: string, rules: seq<Rule>)
    requires TagRuleSet(rules)
    requires '<' !in x
    decreases |x|
    ensures Rewrite(x, rules) == x
  {
    if x != [] {
      RewriteKeepsTextWithoutTags(x[1..], rules);
    }
  }

  lemma FirstRuleAgrees(rules: seq<Rule>, s: string, t: string)
    requires forall k :: 0 <= k < |rules| ==> (IsPrefix(rules[k].pattern, s) <==> IsPrefix(rules[k].pattern, t))
    ensures FirstRule(rules, s) == FirstRule(rules, t)
  {
  }

  lemma NoTagInside(p: string, i: nat)
    requires TagShaped(p) && 0 < i < |p|
    ensures p[i] != '<'
  {
    assert p[1..][i - 1] == p[i];
  }

  /** The pass splits at any point where a tag begins: no match can span it. */
  lemma {:induction false} RewriteAppend(a: string, b: string, rules: seq<Rule>)
    requires TagRuleSet(rules)
    requires b == [] || b[0] == '<'
    decreases |a|
    ensures Rewrite(a + b, rules) == Rewrite(a, rules) + Rewrite(b, rules)
  {
    if a == [] {
      assert a + b == b;
    } else {
      var s := a + b;
      forall k | 0 <= k < |rules| ensures IsPrefix(rules[k].pattern, s) <==> IsPrefix(rules[k].pattern, a) {
        var p := rules[k].pattern;
        if |p| > |a| { NoTagInside(p, |a|); }
        if IsPrefix(p, s) && |p| <= |a| {
          assert s[..|p|] == a[..|p|];
        }
        if IsPrefix(p, a) {
          assert s[..|p|] == a[..|p|];
        }
      }
      FirstRuleAgrees(rules, s, a);
      match FirstRule(rules, a)
      case Some(k) =>
        var n := |rules[k].pattern|;
        assert s[n..] == a[n..] + b;
        RewriteAppend(a[n..], b, rules);
      case None =>
        assert s[0] == a[0];
        assert s[1..] == a[1..] + b;
        RewriteAppend(a[1..], b, rules);
    }
  }

  /** A tag-shaped input gives a tag-shaped output: at most its head is replaced. */
  lemma RewriteTagShaped(x: string, rules: seq<Rule>)
    requires TagRuleSet(rules)
    requires TagShaped(x)
    ensures Rewrite(x, rules) == match FirstRule(rules, x)
                                 case Some(k) => rules[k].replacement + x[|rules[k].pattern|..]
                                 case None => x
    ensures TagShaped(Rewrite(x, rules))
  {
    match FirstRule(rules, x)
    case Some(k) =>
      var p := rules[k].pattern;
      assert x[|p|..] == x[1..][|p| - 1..];
      RewriteKeepsTextWithoutTags(x[|p|..], rules);
      var out := rules[k].replacement + x[|p|..];
      assert out[1..] == rules[k].replacement[1..] + x[|p|..];
    case None =>
      RewriteKeepsTextWithoutTags(x[1..], rules);
      assert [x[0]] + x[1..] == x;
  }

  lemma RewriteStartsWithTag(x: string, rules: seq<Rule>)
    requires TagRuleSet(rules)
    requires x == [] || x[0] == '<'
    ensures var out := Rewrite(x, rules); out == [] || out[0] == '<'
    ensures x == [] ==> Rewrite(x, rules) == []
  {
  }

  lemma RewriteCopiesPlainChar(c: char, y: string, rules: seq<Rule>)
    requires TagRuleSet(rules)
    requires c != '<'
    ensures Rewrite([c] + y, rules) == [c] + Rewrite(y, rules)
  {
    var s := [c] + y;
    assert s[1..] == y;
  }

  lemma StyleHasNoTag()
    ensures '<' !in Style
  {
    assert '<' !in StylePadding;
    assert '<' !in StyleBorder;
    assert '<' !in StyleCollapse;
  }

  lemma TagShapedConcat(head: string, mid: string, tail: string)
    requires TagShaped(head) && '<' !in mid && '<' !in tail
    ensures TagShaped(head + mid + tail)
  {
    assert (head + mid + tail)[1..] == head[1..] + mid + tail;
  }

  lemma ReplacementsTagShaped()
    ensures TagShaped(StyledTableOpen) && TagShaped(StyledHeaderStyleOpen) && TagShaped(StyledHeaderOpen)
    ensures TagShaped(StyledDataStyleOpen) && TagShaped(StyledDataOpen)
  {
    StyleHasNoTag();
    TagShapedConcat("<table style=\"", Style, "\">");
    TagShapedConcat(HeaderStyleOpen, Style, "");
    assert StyledHeaderStyleOpen == HeaderStyleOpen + Style + "";
    TagShapedConcat(HeaderStyleOpen, Style, "\">");
    TagShapedConcat(DataStyleOpen, Style, "");
    assert StyledDataStyleOpen == DataStyleOpen + Style + "";
    TagShapedConcat(DataStyleOpen, Style, "\">");
  }

  lemma PatternsTagShaped()
    ensures TagShaped(TableOpen) && TagShaped(HeaderStyleOpen) && TagShaped(HeaderOpen)
    ensures TagShaped(DataStyleOpen) && TagShaped(DataOpen)
  {
  }

  /** The facts about the five patterns and replacements that the proofs use. */
  lemma TagRuleFacts()
    ensures TagRuleSet(TagRules())
    ensures forall k :: 0 <= k < 5 ==> TagRuleSet([TagRules()[k]])
    ensures NonEmptyPatterns(TagRules())
  {
    ReplacementsTagShaped();
    PatternsTagShaped();
  }

  /** The chain written as five single-rule passes. */
  function Single(k: nat): seq<Rule>
    requires k < 5
  {
    [TagRules()[k]]
  }

  function Stages(s: string): string
  {
    TagRuleFacts();
    Rewrite(Rewrite(Rewrite(Rewrite(Rewrite(s, Single(0)), Single(1)), Single(2)), Single(3)), Single(4))
  }

  lemma StyleTableIsStages(html: string)
    ensures StyleTable(html) == Stages(html)
  {
  }

  lemma PrefixChar(p: string, x: string, i: nat)
    requires IsPrefix(p, x) && i < |p|
    ensures x[i] == p[i]
  {
    assert x[..|p|][i] == x[i];
  }

  lemma NotPrefixByChar(p: string, x: string, i: nat)
    requires i < |p| && i < |x| && x[i] != p[i]
    ensures !IsPrefix(p, x)
  {
    if IsPrefix(p, x) { PrefixChar(p, x, i); }
  }

  /** `p` replaced at the head of `x`, if `x` starts with it. */
  function HeadReplace(x: string, p: string, r: string): string
  {
    if IsPrefix(p, x) then r + x[|p|..] else x
  }

  lemma SingleStageOnTag(x: string, k: nat)
    requires k < 5 && TagShaped(x)
    ensures Rewrite(x, Single(k)) == HeadReplace(x, TagRules()[k].pattern, TagRules()[k].replacement)
    ensures TagShaped(Rewrite(x, Single(k)))
  {
    TagRuleFacts();
    RewriteTagShaped(x, Single(k));
  }

  lemma AllStagesOnTag(x: string)
    requires TagShaped(x)
    ensures Rewrite(x, TagRules()) ==
      if IsPrefix(TableOpen, x) then StyledTableOpen + x[|TableOpen|..]
      else if IsPrefix(HeaderStyleOpen, x) then StyledHeaderStyleOpen + x[|HeaderStyleOpen|..]
      else if IsPrefix(HeaderOpen, x) then StyledHeaderOpen + x[|HeaderOpen|..]
      else if IsPrefix(DataStyleOpen, x) then StyledDataStyleOpen + x[|DataStyleOpen|..]
      else if IsPrefix(DataOpen, x) then StyledDataOpen + x[|DataOpen|..]
      else x
  {
    TagRuleFacts();
    RewriteTagShaped(x, TagRules());
  }

  lemma StyledChars()
    ensures StyledTableOpen[2] == 'a' && StyledHeaderStyleOpen[2] == 'h' && StyledHeaderOpen[2] == 'h'
    ensures StyledDataStyleOpen[2] == 'd' && StyledDataOpen[2] == 'd'
    ensures StyledHeaderStyleOpen[3] == ' ' && StyledHeaderOpen[3] == ' ' && StyledDataStyleOpen[3] == ' '
    ensures |StyledTableOpen| > 3 && |StyledHeaderStyleOpen| > 3 && |StyledDataStyleOpen| > 3
    ensures |StyledHeaderOpen| > 3 && |StyledDataOpen| > 3
  {
  }

  /** The five passes on a tag-shaped piece, by stages: the first `k` leave
      it alone, pass `k` replaces its head, and the later ones leave the
      replacement alone. */
  lemma StagesOnTagAt(a: string, k: nat)
    requires TagShaped(a) && k < 5
    requires forall m :: 0 <= m < k ==> !IsPrefix(TagRules()[m].pattern, a)
    requires IsPrefix(TagRules()[k].pattern, a)
    requires forall m :: k < m < 5 ==> !IsPrefix(TagRules()[m].pattern, TagRules()[k].replacement + a[|TagRules()[k].pattern|..])
    ensures Stages(a) == TagRules()[k].replacement + a[|TagRules()[k].pattern|..]
  {
    TagRuleFacts();
    var x1 := Rewrite(a, Single(0));
    SingleStageOnTag(a, 0);
    var x2 := Rewrite(x1, Single(1));
    SingleStageOnTag(x1, 1);
    var x3 := Rewrite(x2, Single(2));
    SingleStageOnTag(x2, 2);
    var x4 := Rewrite(x3, Single(3));
    SingleStageOnTag(x3, 3);
    SingleStageOnTag(x4, 4);
  }

  lemma StagesOnPlainTag(a: string)
    requires TagShaped(a)
    requires forall m :: 0 <= m < 5 ==> !IsPrefix(TagRules()[m].pattern, a)
    ensures Stages(a) == a
  {
    TagRuleFacts();
    SingleStageOnTag(a, 0);
    SingleStageOnTag(a, 1);
    SingleStageOnTag(a, 2);
    SingleStageOnTag(a, 3);
    SingleStageOnTag(a, 4);
  }

  lemma StagesOnTableTag(a: string)
    requires TagShaped(a) && IsPrefix(TableOpen, a)
    ensures Stages(a) == StyledTableOpen + a[|TableOpen|..]
  {
    StyledChars();
    var x := StyledTableOpen + a[|TableOpen|..];
    NotPrefixByChar(HeaderStyleOpen, x, 2);
    NotPrefixByChar(HeaderOpen, x, 2);
    NotPrefixByChar(DataStyleOpen, x, 2);
    NotPrefixByChar(DataOpen, x, 2);
    StagesOnTagAt(a, 0);
  }

  lemma StagesOnHeaderStyleTag(a: string)
    requires TagShaped(a) && !IsPrefix(TableOpen, a) && IsPrefix(HeaderStyleOpen, a)
    ensures Stages(a) == StyledHeaderStyleOpen + a[|HeaderStyleOpen|..]
  {
    StyledChars();
    var x := StyledHeaderStyleOpen + a[|HeaderStyleOpen|..];
    NotPrefixByChar(HeaderOpen, x, 3);
    NotPrefixByChar(DataStyleOpen, x, 2);
    NotPrefixByChar(DataOpen, x, 2);
    StagesOnTagAt(a, 1);
  }

  lemma StagesOnHeaderTag(a: string)
    requires TagShaped(a) && !IsPrefix(TableOpen, a) && !IsPrefix(HeaderStyleOpen, a)
    requires IsPrefix(HeaderOpen, a)
    ensures Stages(a) == StyledHeaderOpen + a[|HeaderOpen|..]
  {
    StyledChars();
    var x := StyledHeaderOpen + a[|HeaderOpen|..];
    NotPrefixByChar(DataStyleOpen, x, 2);
    NotPrefixByChar(DataOpen, x, 2);
    StagesOnTagAt(a, 2);
  }

  lemma StagesOnDataStyleTag(a: string)
    requires TagShaped(a) && !IsPrefix(TableOpen, a) && !IsPrefix(HeaderStyleOpen, a)
    requires !IsPrefix(HeaderOpen, a) && IsPrefix(DataStyleOpen, a)
    ensures Stages(a) == StyledDataStyleOpen + a[|DataStyleOpen|..]
  {
    StyledChars();
    NotPrefixByChar(DataOpen, StyledDataStyleOpen + a[|DataStyleOpen|..], 3);
    StagesOnTagAt(a, 3);
  }

  /** On one tag-shaped piece the five passes do what the single pass does. */
  lemma StagesOnTag(a: string)
    requires TagShaped(a)
    ensures Stages(a) == Rewrite(a, TagRules())
  {
    AllStagesOnTag(a);
    if IsPrefix(TableOpen, a) {
      StagesOnTableTag(a);
    } else if IsPrefix(HeaderStyleOpen, a) {
      StagesOnHeaderStyleTag(a);
    } else if IsPrefix(HeaderOpen, a) {
      StagesOnHeaderTag(a);
    } else if IsPrefix(DataStyleOpen, a) {
      StagesOnDataStyleTag(a);
    } else if IsPrefix(DataOpen, a) {
      StagesOnTagAt(a, 4);
    } else {
      StagesOnPlainTag(a);
    }
  }

  lemma StagesCopyPlainChar(c: char, y: string)
    requires c != '<'
    ensures Stages([c] + y) == [c] + Stages(y)
  {
    TagRuleFacts();
    var y1 := Rewrite(y, Single(0));
    RewriteCopiesPlainChar(c, y, Single(0));
    var y2 := Rewrite(y1, Single(1));
    RewriteCopiesPlainChar(c, y1, Single(1));
    var y3 := Rewrite(y2, Single(2));
    RewriteCopiesPlainChar(c, y2, Single(2));
    var y4 := Rewrite(y3, Single(3));
    RewriteCopiesPlainChar(c, y3, Single(3));
    RewriteCopiesPlainChar(c, y4, Single(4));
  }

  lemma StagesAppend(a: string, b: string)
    requires b == [] || b[0] == '<'
    ensures Stages(a + b) == Stages(a) + Stages(b)
  {
    TagRuleFacts();
    var a1, b1 := Rewrite(a, Single(0)), Rewrite(b, Single(0));
    RewriteAppend(a, b, Single(0));
    RewriteStartsWithTag(b, Single(0));
    var a2, b2 := Rewrite(a1, Single(1)), Rewrite(b1, Single(1));
    RewriteAppend(a1, b1, Single(1));
    RewriteStartsWithTag(b1, Single(1));
    var a3, b3 := Rewrite(a2, Single(2)), Rewrite(b2, Single(2));
    RewriteAppend(a2, b2, Single(2));
    RewriteStartsWithTag(b2, Single(2));
    var a4, b4 := Rewrite(a3, Single(3)), Rewrite(b3, Single(3));
    RewriteAppend(a3, b3, Single(3));
    RewriteStartsWithTag(b3, Single(3));
    RewriteAppend(a4, b4, Single(4));
  }

  /** Index of the next `<` at or after `i`, or the length when there is none. */
  function NextTag(s: string, i: nat): (j: nat)
    requires i <= |s|
    decreases |s| - i
    ensures i <= j <= |s|
    ensures j < |s| ==> s[j] == '<'
    ensures forall k :: i <= k < j ==> s[k] != '<'
  {
    if i == |s| || s[i] == '<' then i else NextTag(s, i + 1)
  }

  /** The five `str.replace` passes of main.py lines 84-89 equal one pass
      that, at each position, styles whichever of the five tag openings
      starts there: no pass creates or destroys a match for a later pass. */
  lemma {:induction false} StyleTableIsOnePass(html: string)
    decreases |html|
    ensures StyleTable(html) == Rewrite(html, TagRules())
  {
    TagRuleFacts();
    StyleTableIsStages(html);
    if html == [] {
    } else if html[0] != '<' {
      assert html == [html[0]] + html[1..];
      StagesCopyPlainChar(html[0], html[1..]);
      RewriteCopiesPlainChar(html[0], html[1..], TagRules());
      StyleTableIsOnePass(html[1..]);
    } else {
      var j := NextTag(html, 1);
      var a, b := html[..j], html[j..];
      assert html == a + b;
      assert a[1..] == html[1..j];
      assert TagShaped(a);
      StagesAppend(a, b);
      StagesOnTag(a);
      RewriteAppend(a, b, TagRules());
      StyleTableIsOnePass(b);
    }
  }

  lemma {:induction false} PrefixWithoutTags(x: string, rules: seq<Rule>, m: nat)
    requires TagRuleSet(rules)
    decreases |x|
    ensures m <= |Rewrite(x, rules)| && '<' !in Rewrite(x, rules)[..m] ==>
      m <= |x| && x[..m] == Rewrite(x, rules)[..m]
  {
    var out := Rewrite(x, rules);
    if x != [] && m > 0 && m <= |out| {
      assert out[..m][0] == out[0];
      if FirstRule(rules, x).None? {
        PrefixWithoutTags(x[1..], rules, m - 1);
        assert out == [x[0]] + Rewrite(x[1..], rules);
        assert out[..m] == [x[0]] + Rewrite(x[1..], rules)[..m - 1];
        assert '<' !in out[..m] ==> x[..m] == [x[0]] + x[1..][..m - 1];
      }
    }
  }

  lemma OccursAtShift(pre: string, t: string, p: string, x: int)
    requires x >= 0
    ensures OccursAt(pre + t, p, x + |pre|) <==> OccursAt(t, p, x)
  {
    if 0 <= x && x + |p| <= |t| {
      assert (pre + t)[x + |pre|..x + |pre| + |p|] == t[x..x + |p|];
    }
  }

  /** Where an occurrence of a tag-shaped string in the output comes from:
      either a replacement the pass emitted starts there, or the input has
      the same occurrence at a position where no rule applied. */
  lemma {:induction false} OccurrenceOrigin(s: string, rules: seq<Rule>, q: string, i: int)
    requires TagRuleSet(rules) && TagShaped(q)
    decreases |s|, 1
    ensures OccursAt(Rewrite(s, rules), q, i) ==>
      (exists k :: 0 <= k < |rules| && OccursAt(Rewrite(s, rules), rules[k].replacement, i)) ||
      (exists j :: OccursAt(s, q, j) && FirstRule(rules, s[j..]).None?)
  {
    if s != [] {
      match FirstRule(rules, s)
      case Some(k) => OriginAfterReplacement(s, rules, q, i, k);
      case None => OriginAfterCopy(s, rules, q, i);
    }
  }

  lemma {:induction false} OriginAfterReplacement(s: string, rules: seq<Rule>, q: string, i: int, k: nat)
    requires TagRuleSet(rules) && TagShaped(q)
    requires s != [] && FirstRule(rules, s) == Some(k)
    decreases |s|, 0
    ensures OccursAt(Rewrite(s, rules), q, i) ==>
      (exists k :: 0 <= k < |rules| && OccursAt(Rewrite(s, rules), rules[k].replacement, i)) ||
      (exists j :: OccursAt(s, q, j) && FirstRule(rules, s[j..]).None?)
  {
    var out := Rewrite(s, rules);
    var r, n := rules[k].replacement, |rules[k].pattern|;
    var t := Rewrite(s[n..], rules);
    assert out == r + t;
    if i == 0 {
      assert out[..|r|] == r;
    } else if 0 < i < |r| {
      NoTagInside(r, i);
      assert out[i] == r[i];
    } else if i >= |r| {
      var x := i - |r|;
      OccursAtShift(r, t, q, x);
      OccurrenceOrigin(s[n..], rules, q, x);
      forall k' | 0 <= k' < |rules| ensures OccursAt(t, rules[k'].replacement, x) ==> OccursAt(out, rules[k'].replacement, i) {
        OccursAtShift(r, t, rules[k'].replacement, x);
      }
      forall j | OccursAt(s[n..], q, j) ensures OccursAt(s, q, n + j) && s[n..][j..] == s[n + j..] {
        assert s[n..][j..] == s[n + j..];
        assert s[n + j..][..|q|] == s[n + j..n + j + |q|];
        assert s[n..][j..][..|q|] == s[n..][j..j + |q|];
      }
    }
  }

  lemma CopiedTagOrigin(s: string, rules: seq<Rule>, q: string)
    requires TagRuleSet(rules) && TagShaped(q)
    requires s != [] && FirstRule(rules, s).None?
    ensures OccursAt(Rewrite(s, rules), q, 0) ==> OccursAt(s, q, 0)
  {
    var out := Rewrite(s, rules);
    var t := Rewrite(s[1..], rules);
    assert out == [s[0]] + t;
    PrefixWithoutTags(s[1..], rules, |q| - 1);
    if OccursAt(out, q, 0) {
      assert out[1..|q|] == q[1..];
      assert t[..|q| - 1] == out[1..|q|];
      assert s[..|q|] == [s[0]] + s[1..][..|q| - 1];
    }
  }

  lemma {:induction false} OriginAfterCopy(s: string, rules: seq<Rule>, q: string, i: int)
    requires TagRuleSet(rules) && TagShaped(q)
    requires s != [] && FirstRule(rules, s).None?
    decreases |s|, 0
    ensures OccursAt(Rewrite(s, rules), q, i) ==>
      (exists k :: 0 <= k < |rules| && OccursAt(Rewrite(s, rules), rules[k].replacement, i)) ||
      (exists j :: OccursAt(s, q, j) && FirstRule(rules, s[j..]).None?)
  {
    var out := Rewrite(s, rules);
    var t := Rewrite(s[1..], rules);
    assert out == [s[0]] + t;
    if i == 0 {
      CopiedTagOrigin(s, rules, q);
    } else if i > 0 {
      var x := i - 1;
      OccursAtShift([s[0]], t, q, x);
      OccurrenceOrigin(s[1..], rules, q, x);
      forall k' | 0 <= k' < |rules| ensures OccursAt(t, rules[k'].replacement, x) ==> OccursAt(out, rules[k'].replacement, i) {
        OccursAtShift([s[0]], t, rules[k'].replacement, x);
      }
      forall j | OccursAt(s[1..], q, j) ensures OccursAt(s, q, 1 + j) && s[1..][j..] == s[1 + j..] {
        assert s[1..][j..] == s[1 + j..];
        assert s[1 + j..][..|q|] == s[1 + j..1 + j + |q|];
        assert s[1..][j..][..|q|] == s[1..][j..j + |q|];
      }
    }
  }

  /** Neither string is a prefix of the other: they cannot occur at one place. */
  predicate Clash(a: string, b: string)
  {
    !IsPrefix(a, b) && !IsPrefix(b, a)
  }

  lemma ClashAt(a: string, b: string, c: nat)
    requires c < |a| && c < |b| && a[c] != b[c]
    ensures Clash(a, b)
  {
    NotPrefixByChar(a, b, c);
    NotPrefixByChar(b, a, c);
  }

  lemma ClashExcludes(x: string, a: string, b: string, i: int)
    requires Clash(a, b)
    ensures !(OccursAt(x, a, i) && OccursAt(x, b, i))
  {
    if |a| <= |b| {
      assert OccursAt(x, b, i) ==> x[i..i + |a|] == b[..|a|];
    } else {
      assert OccursAt(x, a, i) ==> x[i..i + |b|] == a[..|b|];
    }
  }

  lemma OccursInside(x: string, a: string, b: string, c: string, i: int)
    ensures OccursAt(x, a + b + c, i) ==> OccursAt(x, b, i + |a|)
  {
    if OccursAt(x, a + b + c, i) {
      assert x[i + |a|..i + |a| + |b|] == x[i..i + |a + b + c|][|a|..|a| + |b|];
    }
  }

  /** Where a rule's pattern occurs in the input, some rule applies there. */
  lemma PatternOccurrenceApplies(s: string, rules: seq<Rule>, m: nat, j: int)
    requires m < |rules|
    ensures OccursAt(s, rules[m].pattern, j) ==> FirstRule(rules, s[j..]).Some?
  {
    if 0 <= j <= |s| {
      OccursAtPrefix(s, rules[m].pattern, j);
    }
  }

  /** A pass leaves no occurrence of a pattern that clashes with every replacement. */
  lemma PatternAbsentAfterRewrite(s: string, rules: seq<Rule>, m: nat)
    requires TagRuleSet(rules) && m < |rules|
    requires forall k :: 0 <= k < |rules| ==> Clash(rules[m].pattern, rules[k].replacement)
    ensures !Contains(Rewrite(s, rules), rules[m].pattern)
  {
    var out, p := Rewrite(s, rules), rules[m].pattern;
    forall i ensures !OccursAt(out, p, i) {
      OccurrenceOrigin(s, rules, p, i);
      forall k | 0 <= k < |rules| ensures !(OccursAt(out, rules[k].replacement, i) && OccursAt(out, p, i)) {
        ClashExcludes(out, p, rules[k].replacement, i);
      }
      forall j ensures OccursAt(s, p, j) ==> FirstRule(rules, s[j..]).Some? {
        PatternOccurrenceApplies(s, rules, m, j);
      }
    }
  }

  /** The three bare openings clash with every replacement. */
  lemma BareOpenClashes()
    ensures forall k :: 0 <= k < 5 ==> Clash(TableOpen, TagRules()[k].replacement)
    ensures forall k :: 0 <= k < 5 ==> Clash(HeaderOpen, TagRules()[k].replacement)
    ensures forall k :: 0 <= k < 5 ==> Clash(DataOpen, TagRules()[k].replacement)
  {
    StyledChars();
    assert StyledTableOpen[6] == ' ';
    ClashAt(TableOpen, StyledTableOpen, 6);
    ClashAt(TableOpen, StyledHeaderStyleOpen, 2);
    ClashAt(TableOpen, StyledHeaderOpen, 2);
    ClashAt(TableOpen, StyledDataStyleOpen, 2);
    ClashAt(TableOpen, StyledDataOpen, 2);
    ClashAt(HeaderOpen, StyledTableOpen, 2);
    ClashAt(HeaderOpen, StyledHeaderStyleOpen, 3);
    ClashAt(HeaderOpen, StyledHeaderOpen, 3);
    ClashAt(HeaderOpen, StyledDataStyleOpen, 2);
    ClashAt(HeaderOpen, StyledDataOpen, 2);
    ClashAt(DataOpen, StyledTableOpen, 2);
    ClashAt(DataOpen, StyledHeaderStyleOpen, 2);
    ClashAt(DataOpen, StyledHeaderOpen, 2);
    ClashAt(DataOpen, StyledDataStyleOpen, 3);
    ClashAt(DataOpen, StyledDataOpen, 3);
  }

  /** A styled header opening clashes with the replacements of the other elements. */
  lemma HeaderStyleOpenClashes()
    ensures Clash(HeaderStyleOpen, StyledTableOpen) && Clash(HeaderStyleOpen, StyledDataStyleOpen)
    ensures Clash(HeaderStyleOpen, StyledDataOpen)
  {
    StyledChars();
    ClashAt(HeaderStyleOpen, StyledTableOpen, 2);
    ClashAt(HeaderStyleOpen, StyledDataStyleOpen, 2);
    ClashAt(HeaderStyleOpen, StyledDataOpen, 2);
  }

  /** A styled data opening clashes with the replacements of the other elements. */
  lemma DataStyleOpenClashes()
    ensures Clash(DataStyleOpen, StyledTableOpen) && Clash(DataStyleOpen, StyledHeaderStyleOpen)
    ensures Clash(DataStyleOpen, StyledHeaderOpen)
  {
    StyledChars();
    ClashAt(DataStyleOpen, StyledTableOpen, 2);
    ClashAt(DataStyleOpen, StyledHeaderStyleOpen, 2);
    ClashAt(DataStyleOpen, StyledHeaderOpen, 2);
  }

  /** After the chain no bare `<table>`, `<th>` or `<td>` is left. */
  lemma StyledTableHasNoBareTags(html: string)
    ensures !Contains(StyleTable(html), TableOpen)
    ensures !Contains(StyleTable(html), HeaderOpen)
    ensures !Contains(StyleTable(html), DataOpen)
  {
    StyleTableIsOnePass(html);
    TagRuleFacts();
    BareOpenClashes();
    PatternAbsentAfterRewrite(html, TagRules(), 0);
    PatternAbsentAfterRewrite(html, TagRules(), 2);
    PatternAbsentAfterRewrite(html, TagRules(), 4);
  }

  /** Every occurrence of a tag-shaped string in a pass's output starts a
      replacement, unless the input had it where no rule applied. */
  lemma OccurrenceStartsReplacement(s: string, rules: seq<Rule>, m: nat, i: int)
    requires TagRuleSet(rules) && m < |rules|
    ensures OccursAt(Rewrite(s, rules), rules[m].pattern, i) ==>
      exists k :: 0 <= k < |rules| && OccursAt(Rewrite(s, rules), rules[k].replacement, i)
  {
    var p := rules[m].pattern;
    OccurrenceOrigin(s, rules, p, i);
    forall j ensures OccursAt(s, p, j) ==> FirstRule(rules, s[j..]).Some? {
      PatternOccurrenceApplies(s, rules, m, j);
    }
  }

  /** A `<th style="` where the chain emitted a replacement is followed by the style. */
  lemma HeaderStyleInReplacement(x: string, i: int, k: nat)
    requires k < 5 && OccursAt(x, TagRules()[k].replacement, i)
    ensures OccursAt(x, HeaderStyleOpen, i) ==> OccursAt(x, Style, i + |HeaderStyleOpen|)
  {
    HeaderStyleOpenClashes();
    var r := TagRules()[k].replacement;
    if k == 1 {
      assert r == HeaderStyleOpen + Style + "";
      OccursInside(x, HeaderStyleOpen, Style, "", i);
    } else if k == 2 {
      OccursInside(x, HeaderStyleOpen, Style, "\">", i);
    } else {
      ClashExcludes(x, HeaderStyleOpen, r, i);
    }
  }

  /** A `<td style="` where the chain emitted a replacement is followed by the style. */
  lemma DataStyleInReplacement(x: string, i: int, k: nat)
    requires k < 5 && OccursAt(x, TagRules()[k].replacement, i)
    ensures OccursAt(x, DataStyleOpen, i) ==> OccursAt(x, Style, i + |DataStyleOpen|)
  {
    DataStyleOpenClashes();
    var r := TagRules()[k].replacement;
    if k == 3 {
      assert r == DataStyleOpen + Style + "";
      OccursInside(x, DataStyleOpen, Style, "", i);
    } else if k == 4 {
      OccursInside(x, DataStyleOpen, Style, "\">", i);
    } else {
      ClashExcludes(x, DataStyleOpen, r, i);
    }
  }

  /** Every `<th style="` and `<td style="` left in the output, whether the
      renderer wrote it or the chain did, is followed by the inline style. */
  lemma StyledCellsCarryStyle(html: string, i: int)
    ensures OccursAt(StyleTable(html), HeaderStyleOpen, i) ==>
      OccursAt(StyleTable(html), Style, i + |HeaderStyleOpen|)
    ensures OccursAt(StyleTable(html), DataStyleOpen, i) ==>
      OccursAt(StyleTable(html), Style, i + |DataStyleOpen|)
  {
    StyleTableIsOnePass(html);
    TagRuleFacts();
    var out := Rewrite(html, TagRules());
    OccurrenceStartsReplacement(html, TagRules(), 1, i);
    if OccursAt(out, HeaderStyleOpen, i) {
      var k :| 0 <= k < 5 && OccursAt(out, TagRules()[k].replacement, i);
      HeaderStyleInReplacement(out, i, k);
    }
    OccurrenceStartsReplacement(html, TagRules(), 3, i);
    if OccursAt(out, DataStyleOpen, i) {
      var k :| 0 <= k < 5 && OccursAt(out, TagRules()[k].replacement, i);
      DataStyleInReplacement(out, i, k);
    }
  }

  /** Text without any tag passes through the chain unchanged. */
  lemma StyleTableKeepsPlainText(html: string)
    requires '<' !in html
    ensures StyleTable(html) == html
  {
    StyleTableIsOnePass(html);
    TagRuleFacts();
    RewriteKeepsTextWithoutTags(html, TagRules());
  }
}
