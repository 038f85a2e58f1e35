/** The work-hiding unit: for every work blurb on a listing page, the reasons to
    hide it under the user's language, crossover, author and tag filters. */
module HideWorks {
  import opened Wrappers
  import opened Text

  datatype Tag = Tag(name: string, tagType: string)

  datatype Matcher = Exact | Contains | Regex

  /** A tag filter; an absent `tagType` matches tags of any type, an absent
      `matcher` compares names exactly. */
  datatype TagFilter = TagFilter(name: string, tagType: Option<string>, matcher: Option<Matcher>, invert: bool)

  datatype Author = Author(userId: string, pseud: Option<string>)

  /** An author filter; an absent `pseud` matches every pseud of the user. */
  datatype AuthorFilter = AuthorFilter(userId: string, pseud: Option<string>, invert: bool)

  /** `show` holds the labels of the languages to keep. */
  datatype LanguageOption = LanguageOption(enabled: bool, show: seq<string>)

  datatype CrossoverOption = CrossoverOption(enabled: bool, maxFandoms: int)

  datatype AuthorOption = AuthorOption(enabled: bool, filters: seq<AuthorFilter>)

  datatype TagOption = TagOption(enabled: bool, filters: seq<TagFilter>)

  datatype HideOptions = HideOptions(
    hideLanguages: LanguageOption,
    hideCrossovers: CrossoverOption,
    hideAuthors: AuthorOption,
    hideTags: TagOption)

  /** What the unit reads off one blurb. */
  datatype Blurb = Blurb(language: Option<string>, fandoms: seq<string>, authors: seq<Author>, tags: seq<Tag>)

  /** One entry of `hideReasons`; its text is `ReasonText`. */
  datatype HideReason =
    | LanguageReason(language: string)
    | CrossoverReason(fandomCount: nat)
    | AuthorReason(labels: seq<string>)
    | TagReason(names: seq<string>)

  /** `new RegExp(pattern).test(subject)`, given both lower-cased; JavaScript regular
      expressions are not modelled, so the test is a parameter. */
  type RegexTest = (string, string) -> bool

  /** The unit's `enabled` getter. */
  function Enabled(o: HideOptions): bool {
    o.hideCrossovers.enabled || o.hideLanguages.enabled || o.hideAuthors.enabled || o.hideTags.enabled
  }

  // ---- matching -------------------------------------------------------------

  /** The type test of `tagFilterMatchesTag`. */
  predicate TypeAllows(filter: TagFilter, tag: Tag) {
    filter.tagType.None? || filter.tagType.value == tag.tagType
  }

  /** `tagFilterMatchesTag`. */
  function TagFilterMatchesTag(filter: TagFilter, tag: Tag, regexTest: RegexTest): bool {
    if filter.tagType.Some? && filter.tagType.value != tag.tagType then false
    else if filter.matcher == Some(Contains) then Includes(Lower(tag.name), Lower(filter.name))
    else if filter.matcher == Some(Regex) then regexTest(Lower(filter.name), Lower(tag.name))
    else filter.name == tag.name
  }

  /** A filter of another type never matches; `contains` looks for the lower-cased
      filter name inside the lower-cased tag name; a missing or `exact` matcher
      compares the names as they are. */
  lemma TagFilterRules(filter: TagFilter, tag: Tag, regexTest: RegexTest)
    ensures !TypeAllows(filter, tag) ==> !TagFilterMatchesTag(filter, tag, regexTest)
    ensures TypeAllows(filter, tag) && filter.matcher == Some(Contains) ==>
      (TagFilterMatchesTag(filter, tag, regexTest) <==> exists i :: OccursAt(Lower(tag.name), Lower(filter.name), i))
    ensures TypeAllows(filter, tag) && filter.matcher != Some(Contains) && filter.matcher != Some(Regex) ==>
      (TagFilterMatchesTag(filter, tag, regexTest) <==> filter.name == tag.name)
  {
  }

  /** The `contains` matcher ignores case: tag names that lower-case alike match
      alike. An exact match is also a `contains` match. */
  lemma MatcherCaseRules(filter: TagFilter, tag: Tag, other: string, regexTest: RegexTest)
    requires Lower(other) == Lower(tag.name)
    ensures filter.matcher == Some(Contains) ==>
      (TagFilterMatchesTag(filter, tag, regexTest)
       <==> TagFilterMatchesTag(filter, tag.(name := other), regexTest))
    ensures TagFilterMatchesTag(filter.(matcher := None), tag, regexTest) ==>
      TagFilterMatchesTag(filter.(matcher := Some(Contains)), tag, regexTest)
  {
    if TypeAllows(filter, tag) && filter.name == tag.name {
      assert OccursAt(Lower(tag.name), Lower(filter.name), 0);
    }
  }

  predicate AuthorFilterMatches(f: AuthorFilter, a: Author) {
    f.userId == a.userId && (f.pseud.None? || f.pseud == a.pseud)
  }

  /** The filter an author is matched to (`find`). */
  function AuthorMatch(filters: seq<AuthorFilter>, a: Author): Option<AuthorFilter> {
    if |filters| == 0 then None
    else if AuthorFilterMatches(filters[0], a) then Some(filters[0])
    else AuthorMatch(filters[1..], a)
  }

  /** An author is matched to the first filter for the same user whose pseud is absent
      or the author's, and to none exactly when no filter is such. */
  lemma {:induction false} AuthorMatchFirst(filters: seq<AuthorFilter>, a: Author)
    ensures AuthorMatch(filters, a).Some? ==>
      exists k :: 0 <= k < |filters| && filters[k] == AuthorMatch(filters, a).value && AuthorFilterMatches(filters[k], a)
                  && forall j :: 0 <= j < k ==> !AuthorFilterMatches(filters[j], a)
    ensures AuthorMatch(filters, a).None? <==> forall j :: 0 <= j < |filters| ==> !AuthorFilterMatches(filters[j], a)
  {
    if |filters| > 0 && !AuthorFilterMatches(filters[0], a) {
      var r := AuthorMatch(filters[1..], a);
      AuthorMatchFirst(filters[1..], a);
      assert forall j :: 0 < j < |filters| ==> filters[j] == filters[1..][j - 1];
      if r.Some? {
        var k :| 0 <= k < |filters[1..]| && filters[1..][k] == r.value && AuthorFilterMatches(filters[1..][k], a)
                 && forall j :: 0 <= j < k ==> !AuthorFilterMatches(filters[1..][j], a);
        assert filters[k + 1] == filters[1..][k];
        assert forall j :: 0 <= j < k + 1 ==> !AuthorFilterMatches(filters[j], a);
      }
    } else if |filters| > 0 {
      assert filters[0] == AuthorMatch(filters, a).value;
    }
  }

  /** The filter a tag is matched to (`find`). */
  function TagMatch(filters: seq<TagFilter>, t: Tag, regexTest: RegexTest): Option<TagFilter> {
    if |filters| == 0 then None
    else if TagFilterMatchesTag(filters[0], t, regexTest) then Some(filters[0])
    else TagMatch(filters[1..], t, regexTest)
  }

  /** A tag is matched to the first filter that matches it, and to none exactly when
      no filter does. */
  lemma {:induction false} TagMatchFirst(filters: seq<TagFilter>, t: Tag, regexTest: RegexTest)
    ensures TagMatch(filters, t, regexTest).Some? ==>
      exists k :: 0 <= k < |filters| && filters[k] == TagMatch(filters, t, regexTest).value
                  && TagFilterMatchesTag(filters[k], t, regexTest)
                  && forall j :: 0 <= j < k ==> !TagFilterMatchesTag(filters[j], t, regexTest)
    ensures TagMatch(filters, t, regexTest).None? <==>
      forall j :: 0 <= j < |filters| ==> !TagFilterMatchesTag(filters[j], t, regexTest)
  {
    if |filters| > 0 && !TagFilterMatchesTag(filters[0], t, regexTest) {
      var r := TagMatch(filters[1..], t, regexTest);
      TagMatchFirst(filters[1..], t, regexTest);
      assert forall j :: 0 < j < |filters| ==> filters[j] == filters[1..][j - 1];
      if r.Some? {
        var k :| 0 <= k < |filters[1..]| && filters[1..][k] == r.value && TagFilterMatchesTag(filters[1..][k], t, regexTest)
                 && forall j :: 0 <= j < k ==> !TagFilterMatchesTag(filters[1..][j], t, regexTest);
        assert filters[k + 1] == filters[1..][k];
        assert forall j :: 0 <= j < k + 1 ==> !TagFilterMatchesTag(filters[j], t, regexTest);
      }
    } else if |filters| > 0 {
      assert filters[0] == TagMatch(filters, t, regexTest).value;
    }
  }

  /** `matches.filter(e => e !== undefined)`. */
  function Somes<T(!new)>(xs: seq<Option<T>>): (r: seq<T>)
    ensures |r| <= |xs|
    ensures |r| == 0 <==> forall i :: 0 <= i < |xs| ==> xs[i].None?
    ensures forall k :: 0 <= k < |r| ==> Some(r[k]) in xs
  {
    if |xs| == 0 then []
    else
      var rest := Somes(xs[1..]);
      assert forall y :: Some(y) in xs[1..] ==> Some(y) in xs;
      assert forall i :: 0 < i < |xs| ==> xs[i] == xs[1..][i - 1];
      if xs[0].Some? then [xs[0].value] + rest else rest
  }

  lemma SomesSingle<T(!new)>(x: Option<T>)
    ensures Somes([x]) == (if x.Some? then [x.value] else [])
  {
    assert [x][1..] == [];
  }

  /** Dropping the absent entries keeps the present ones in order and with their
      repetitions: it distributes over concatenation. */
  lemma {:induction false} SomesConcat<T(!new)>(a: seq<Option<T>>, b: seq<Option<T>>)
    ensures Somes(a + b) == Somes(a) + Somes(b)
    decreases |a|
  {
    if |a| == 0 {
      assert a + b == b;
    } else {
      assert (a + b)[0] == a[0];
      assert (a + b)[1..] == a[1..] + b;
      SomesConcat(a[1..], b);
    }
  }

  /** How an author filter is named in a reason: the user id, then the pseud in
      parentheses when it is a non-empty string. */
  function AuthorLabel(f: AuthorFilter): (r: string)
    ensures |f.userId| <= |r| && r[..|f.userId|] == f.userId
    ensures |r| == |f.userId| <==> f.pseud.None? || f.pseud.value == ""
    ensures f.pseud.Some? && f.pseud.value != "" ==>
      r[|f.userId|..] == " (" + f.pseud.value + ")"
  {
    f.userId + (if f.pseud.Some? && f.pseud.value != "" then " (" + f.pseud.value + ")" else "")
  }

  /** Two filters for different users are labelled differently when neither user id
      contains a space. */
  lemma AuthorLabelDistinguishes(f: AuthorFilter, g: AuthorFilter)
    requires ' ' !in f.userId && ' ' !in g.userId
    requires f.userId != g.userId
    ensures AuthorLabel(f) != AuthorLabel(g)
  {
    var n, m := |f.userId|, |g.userId|;
    if n < m {
      assert AuthorLabel(g)[n] == g.userId[n] != ' ';
      assert |AuthorLabel(f)| == n || AuthorLabel(f)[n] == ' ';
    } else if m < n {
      assert AuthorLabel(f)[m] == f.userId[m] != ' ';
      assert |AuthorLabel(g)| == m || AuthorLabel(g)[m] == ' ';
    } else {
      assert AuthorLabel(f)[..n] != AuthorLabel(g)[..n];
    }
  }

  /** Two filters for the same user with different non-empty pseuds are labelled
      differently: the parenthesised pseud determines the pseud. */
  lemma AuthorLabelPseudsDiffer(f: AuthorFilter, g: AuthorFilter)
    requires f.userId == g.userId
    requires f.pseud.Some? && f.pseud.value != "" && g.pseud.Some? && g.pseud.value != ""
    requires f.pseud != g.pseud
    ensures AuthorLabel(f) != AuthorLabel(g)
  {
    var n := |f.userId|;
    var x, y := AuthorLabel(f)[n..], AuthorLabel(g)[n..];
    assert x == " (" + f.pseud.value + ")" && y == " (" + g.pseud.value + ")";
    assert x[2..|x| - 1] == f.pseud.value;
    assert y[2..|y| - 1] == g.pseud.value;
  }

  // ---- the four rules -------------------------------------------------------

  /** The order reasons are collected in. */
  function Rank(r: HideReason): nat {
    match r
    case LanguageReason(_) => 0
    case CrossoverReason(_) => 1
    case AuthorReason(_) => 2
    case TagReason(_) => 3
  }

  /** At most one reason, of rank `k`. */
  predicate OfRank(s: seq<HideReason>, k: nat) {
    |s| <= 1 && forall i :: 0 <= i < |s| ==> Rank(s[i]) == k
  }

  function LanguageReasons(o: LanguageOption, b: Blurb): (r: seq<HideReason>)
    ensures OfRank(r, 0)
  {
    if o.enabled && b.language.Some? && b.language.value != "" && b.language.value !in o.show
    then [LanguageReason(b.language.value)]
    else []
  }

  function CrossoverReasons(o: CrossoverOption, b: Blurb): (r: seq<HideReason>)
    ensures OfRank(r, 1)
  {
    if o.enabled && |b.fandoms| > o.maxFandoms then [CrossoverReason(|b.fandoms|)] else []
  }

  /** The shared shape of the author and tag rules: the filters elements were
      matched to, or nothing when one of them is inverted. */
  function Hidden<F(!new)>(matches: seq<Option<F>>, inverted: F -> bool): (r: seq<F>)
    ensures |r| <= |matches|
  {
    if exists i :: 0 <= i < |matches| && matches[i].Some? && inverted(matches[i].value) then []
    else Somes(matches)
  }

  lemma HiddenWhen<F(!new)>(matches: seq<Option<F>>, inverted: F -> bool)
    ensures |Hidden(matches, inverted)| > 0 <==>
      (forall i :: 0 <= i < |matches| && matches[i].Some? ==> !inverted(matches[i].value))
      && (exists i :: 0 <= i < |matches| && matches[i].Some?)
  {
  }

  /** `blurb.authors.map(...)`: each author's matched filter, in author order. */
  function AuthorMatches(filters: seq<AuthorFilter>, authors: seq<Author>): (r: seq<Option<AuthorFilter>>)
    ensures |r| == |authors| && forall i :: 0 <= i < |authors| ==> r[i] == AuthorMatch(filters, authors[i])
    decreases |authors|
  {
    if |authors| == 0 then []
    else
      var rest := AuthorMatches(filters, authors[1..]);
      assert forall i :: 0 < i < |authors| ==> authors[i] == authors[1..][i - 1];
      [AuthorMatch(filters, authors[0])] + rest
  }

  /** `blurb.tags.map(...)`: each tag's matched filter, in tag order. */
  function TagMatches(filters: seq<TagFilter>, tags: seq<Tag>, regexTest: RegexTest): (r: seq<Option<TagFilter>>)
    ensures |r| == |tags| && forall i :: 0 <= i < |tags| ==> r[i] == TagMatch(filters, tags[i], regexTest)
    decreases |tags|
  {
    if |tags| == 0 then []
    else
      var rest := TagMatches(filters, tags[1..], regexTest);
      assert forall i :: 0 < i < |tags| ==> tags[i] == tags[1..][i - 1];
      [TagMatch(filters, tags[0], regexTest)] + rest
  }

  /** The labels of matched filters, in order. */
  function LabelsOf(h: seq<AuthorFilter>): seq<string> {
    seq(|h|, k requires 0 <= k < |h| => AuthorLabel(h[k]))
  }

  /** The labels an author reason lists, walked author by author: each author adds
      the label of the filter it is matched to, an unmatched author adds nothing. */
  function AuthorLabels(filters: seq<AuthorFilter>, authors: seq<Author>): (r: seq<string>)
    ensures |r| <= |authors|
    decreases |authors|
  {
    if |authors| == 0 then []
    else AuthorStep(filters, authors[0]) + AuthorLabels(filters, authors[1..])
  }

  /** What one author adds to the labels: its matched filter's label, or nothing. */
  function AuthorStep(filters: seq<AuthorFilter>, a: Author): seq<string> {
    match AuthorMatch(filters, a)
    case Some(f) => [AuthorLabel(f)]
    case None => []
  }

  /** The labels of a list of authors are those of its parts, in order. */
  lemma {:induction false} AuthorLabelsConcat(filters: seq<AuthorFilter>, a: seq<Author>, b: seq<Author>)
    ensures AuthorLabels(filters, a + b) == AuthorLabels(filters, a) + AuthorLabels(filters, b)
    decreases |a|
  {
    if |a| == 0 {
      assert a + b == b;
    } else {
      assert (a + b)[0] == a[0];
      assert (a + b)[1..] == a[1..] + b;
      AuthorLabelsConcat(filters, a[1..], b);
      calc {
        AuthorLabels(filters, a + b);
        AuthorStep(filters, a[0]) + AuthorLabels(filters, a[1..] + b);
        AuthorStep(filters, a[0]) + (AuthorLabels(filters, a[1..]) + AuthorLabels(filters, b));
        AuthorLabels(filters, a) + AuthorLabels(filters, b);
      }
    }
  }

  lemma LabelsOfConcat(x: seq<AuthorFilter>, y: seq<AuthorFilter>)
    ensures LabelsOf(x + y) == LabelsOf(x) + LabelsOf(y)
  {
  }

  /** Labelling the matched filters that `filter` keeps is the author-by-author walk. */
  lemma {:induction false} AuthorLabelsOfMatches(filters: seq<AuthorFilter>, authors: seq<Author>)
    ensures LabelsOf(Somes(AuthorMatches(filters, authors))) == AuthorLabels(filters, authors)
    decreases |authors|
  {
    if |authors| > 0 {
      var m := AuthorMatch(filters, authors[0]);
      var tail := AuthorMatches(filters, authors[1..]);
      assert AuthorMatches(filters, authors) == [m] + tail;
      SomesConcat([m], tail);
      SomesSingle(m);
      var head := Somes([m]);
      LabelsOfConcat(head, Somes(tail));
      assert LabelsOf(head) == if m.Some? then [AuthorLabel(m.value)] else [];
      AuthorLabelsOfMatches(filters, authors[1..]);
    }
  }

  /** Authors, each matched to its filter; the labels of the matched ones, in author
      order, become the reason unless one of the matches is inverted. */
  function AuthorReasons(o: AuthorOption, b: Blurb): (r: seq<HideReason>)
    ensures OfRank(r, 2)
    ensures |r| > 0 ==> r[0] == AuthorReason(AuthorLabels(o.filters, b.authors))
    ensures |r| > 0 ==> 0 < |r[0].labels| <= |b.authors|
  {
    if !o.enabled then []
    else
      var hidden := Hidden(AuthorMatches(o.filters, b.authors), (f: AuthorFilter) => f.invert);
      AuthorLabelsOfMatches(o.filters, b.authors);
      if |hidden| > 0 then [AuthorReason(LabelsOf(hidden))]
      else []
  }

  /** There is an author reason exactly when the rule is on, at least one author is
      matched to a filter, and no author is matched to an inverted one. */
  lemma AuthorRule(o: AuthorOption, b: Blurb)
    ensures |AuthorReasons(o, b)| > 0 <==>
      o.enabled
      && (forall i :: 0 <= i < |b.authors| && AuthorMatch(o.filters, b.authors[i]).Some? ==>
            !AuthorMatch(o.filters, b.authors[i]).value.invert)
      && (exists i :: 0 <= i < |b.authors| && AuthorMatch(o.filters, b.authors[i]).Some?)
  {
    var ms := AuthorMatches(o.filters, b.authors);
    assert forall i :: 0 <= i < |ms| ==> ms[i] == AuthorMatch(o.filters, b.authors[i]);
    var hidden := Hidden(ms, (f: AuthorFilter) => f.invert);
    HiddenWhen(ms, (f: AuthorFilter) => f.invert);
    assert o.enabled ==> (|AuthorReasons(o, b)| > 0 <==> |hidden| > 0);
  }

  /** The names of matched filters, in order. */
  function NamesOf(h: seq<TagFilter>): seq<string> {
    seq(|h|, k requires 0 <= k < |h| => h[k].name)
  }

  /** The names a tag reason lists, walked tag by tag: each tag adds the name of the
      filter it is matched to, an unmatched tag adds nothing. */
  function TagNames(filters: seq<TagFilter>, tags: seq<Tag>, regexTest: RegexTest): (r: seq<string>)
    ensures |r| <= |tags|
    decreases |tags|
  {
    if |tags| == 0 then []
    else
      (match TagMatch(filters, tags[0], regexTest)
       case Some(f) => [f.name]
       case None => [])
      + TagNames(filters, tags[1..], regexTest)
  }

  /** The names of a list of tags are those of its parts, in order. */
  lemma {:induction false} TagNamesConcat(filters: seq<TagFilter>, a: seq<Tag>, b: seq<Tag>, regexTest: RegexTest)
    ensures TagNames(filters, a + b, regexTest) == TagNames(filters, a, regexTest) + TagNames(filters, b, regexTest)
    decreases |a|
  {
    if |a| == 0 {
      assert a + b == b;
    } else {
      assert (a + b)[0] == a[0];
      assert (a + b)[1..] == a[1..] + b;
      TagNamesConcat(filters, a[1..], b, regexTest);
    }
  }

  lemma NamesOfConcat(x: seq<TagFilter>, y: seq<TagFilter>)
    ensures NamesOf(x + y) == NamesOf(x) + NamesOf(y)
  {
  }

  /** Naming the matched filters that `filter` keeps is the tag-by-tag walk. */
  lemma {:induction false} TagNamesOfMatches(filters: seq<TagFilter>, tags: seq<Tag>, regexTest: RegexTest)
    ensures NamesOf(Somes(TagMatches(filters, tags, regexTest))) == TagNames(filters, tags, regexTest)
    decreases |tags|
  {
    if |tags| > 0 {
      var m := TagMatch(filters, tags[0], regexTest);
      var tail := TagMatches(filters, tags[1..], regexTest);
      assert TagMatches(filters, tags, regexTest) == [m] + tail;
      SomesConcat([m], tail);
      SomesSingle(m);
      var head := Somes([m]);
      NamesOfConcat(head, Somes(tail));
      assert NamesOf(head) == if m.Some? then [m.value.name] else [];
      TagNamesOfMatches(filters, tags[1..], regexTest);
    }
  }

  /** Tags, each matched to its filter; the names of the matching filters, in tag
      order, become the reason unless one of the matches is inverted. */
  function TagReasons(o: TagOption, b: Blurb, regexTest: RegexTest): (r: seq<HideReason>)
    ensures OfRank(r, 3)
    ensures |r| > 0 ==> r[0] == TagReason(TagNames(o.filters, b.tags, regexTest))
    ensures |r| > 0 ==> 0 < |r[0].names| <= |b.tags|
  {
    if !o.enabled then []
    else
      var hidden := Hidden(TagMatches(o.filters, b.tags, regexTest), (f: TagFilter) => f.invert);
      TagNamesOfMatches(o.filters, b.tags, regexTest);
      if |hidden| > 0 then [TagReason(NamesOf(hidden))]
      else []
  }

  /** There is a tag reason exactly when the rule is on, at least one tag is matched
      to a filter, and no tag is matched to an inverted one. */
  lemma TagRule(o: TagOption, b: Blurb, regexTest: RegexTest)
    ensures |TagReasons(o, b, regexTest)| > 0 <==>
      o.enabled
      && (forall i :: 0 <= i < |b.tags| && TagMatch(o.filters, b.tags[i], regexTest).Some? ==>
            !TagMatch(o.filters, b.tags[i], regexTest).value.invert)
      && (exists i :: 0 <= i < |b.tags| && TagMatch(o.filters, b.tags[i], regexTest).Some?)
  {
    var ms := TagMatches(o.filters, b.tags, regexTest);
    assert forall i :: 0 <= i < |ms| ==> ms[i] == TagMatch(o.filters, b.tags[i], regexTest);
    var hidden := Hidden(ms, (f: TagFilter) => f.invert);
    HiddenWhen(ms, (f: TagFilter) => f.invert);
    assert o.enabled ==> (|TagReasons(o, b, regexTest)| > 0 <==> |hidden| > 0);
  }

  /** Collecting the four rules' reasons in order keeps the ranks increasing, and a
      reason of a given rank is present exactly when its rule produced it. */
  lemma Collected(l: seq<HideReason>, c: seq<HideReason>, a: seq<HideReason>, t: seq<HideReason>)
    requires OfRank(l, 0) && OfRank(c, 1) && OfRank(a, 2) && OfRank(t, 3)
    ensures forall i, j :: 0 <= i < j < |l + c + a + t| ==> Rank((l + c + a + t)[i]) < Rank((l + c + a + t)[j])
    ensures forall i :: 0 <= i < |l + c + a + t| && Rank((l + c + a + t)[i]) == 0 ==> (l + c + a + t)[i] == l[0]
    ensures forall i :: 0 <= i < |l + c + a + t| && Rank((l + c + a + t)[i]) == 1 ==> (l + c + a + t)[i] == c[0]
    ensures forall i :: 0 <= i < |l + c + a + t| && Rank((l + c + a + t)[i]) == 2 ==> (l + c + a + t)[i] == a[0]
    ensures forall i :: 0 <= i < |l + c + a + t| && Rank((l + c + a + t)[i]) == 3 ==> (l + c + a + t)[i] == t[0]
    ensures |l| > 0 ==> (l + c + a + t)[0] == l[0]
    ensures |c| > 0 ==> (l + c + a + t)[|l|] == c[0]
    ensures |a| > 0 ==> (l + c + a + t)[|l| + |c|] == a[0]
    ensures |t| > 0 ==> (l + c + a + t)[|l| + |c| + |a|] == t[0]
  {
    var r := l + c + a + t;
    forall i | 0 <= i < |r|
      ensures r[i] == if i < |l| then l[i] else if i < |l| + |c| then c[i - |l|]
                      else if i < |l| + |c| + |a| then a[i - |l| - |c|] else t[i - |l| - |c| - |a|]
    {
    }
  }

  /** The per-blurb decision of the unit's `ready`: the list of hide reasons. */
  function HideReasons(o: HideOptions, b: Blurb, regexTest: RegexTest): seq<HideReason> {
    LanguageReasons(o.hideLanguages, b) + CrossoverReasons(o.hideCrossovers, b)
    + AuthorReasons(o.hideAuthors, b) + TagReasons(o.hideTags, b, regexTest)
  }

  /** Reasons come in the order language, crossover, author, tag, each at most
      once. */
  lemma HideReasonsOrdered(o: HideOptions, b: Blurb, regexTest: RegexTest)
    ensures forall i, j :: 0 <= i < j < |HideReasons(o, b, regexTest)| ==>
      Rank(HideReasons(o, b, regexTest)[i]) < Rank(HideReasons(o, b, regexTest)[j])
  {
    Collected(LanguageReasons(o.hideLanguages, b), CrossoverReasons(o.hideCrossovers, b),
              AuthorReasons(o.hideAuthors, b), TagReasons(o.hideTags, b, regexTest));
  }

  /** The language and crossover reasons carry what their rules saw: the blurb's
      language and its fandom count. */
  lemma HideReasonsCarry(o: HideOptions, b: Blurb, regexTest: RegexTest)
    ensures forall i :: 0 <= i < |HideReasons(o, b, regexTest)| && HideReasons(o, b, regexTest)[i].LanguageReason? ==>
      Some(HideReasons(o, b, regexTest)[i].language) == b.language
    ensures forall i :: 0 <= i < |HideReasons(o, b, regexTest)| && HideReasons(o, b, regexTest)[i].CrossoverReason? ==>
      HideReasons(o, b, regexTest)[i].fandomCount == |b.fandoms|
  {
    var l := LanguageReasons(o.hideLanguages, b);
    var c := CrossoverReasons(o.hideCrossovers, b);
    var a := AuthorReasons(o.hideAuthors, b);
    var t := TagReasons(o.hideTags, b, regexTest);
    Collected(l, c, a, t);
    var r := HideReasons(o, b, regexTest);
    assert r == l + c + a + t;
    forall i | 0 <= i < |r|
      ensures r[i].LanguageReason? ==> Some(r[i].language) == b.language
      ensures r[i].CrossoverReason? ==> r[i].fandomCount == |b.fandoms|
    {
      assert Rank(r[i]) == 0 ==> r[i] == l[0];
      assert Rank(r[i]) == 1 ==> r[i] == c[0];
    }
  }

  /** The author reason lists the labels of the authors' matched filters, in author
      order, never empty and never more than the blurb's authors. */
  lemma HideReasonsAuthorLabels(o: HideOptions, b: Blurb, regexTest: RegexTest)
    ensures forall i :: 0 <= i < |HideReasons(o, b, regexTest)| && HideReasons(o, b, regexTest)[i].AuthorReason? ==>
      HideReasons(o, b, regexTest)[i].labels == AuthorLabels(o.hideAuthors.filters, b.authors)
      && 0 < |HideReasons(o, b, regexTest)[i].labels| <= |b.authors|
  {
    var l := LanguageReasons(o.hideLanguages, b);
    var c := CrossoverReasons(o.hideCrossovers, b);
    var a := AuthorReasons(o.hideAuthors, b);
    var t := TagReasons(o.hideTags, b, regexTest);
    Collected(l, c, a, t);
    var r := HideReasons(o, b, regexTest);
    assert r == l + c + a + t;
    forall i | 0 <= i < |r| && r[i].AuthorReason?
      ensures r[i].labels == AuthorLabels(o.hideAuthors.filters, b.authors) && 0 < |r[i].labels| <= |b.authors|
    {
      assert r[i] == a[0];
    }
  }

  /** The tag reason lists the names of the tags' matched filters, in tag order,
      never empty and never more than the blurb's tags. */
  lemma HideReasonsTagNames(o: HideOptions, b: Blurb, regexTest: RegexTest)
    ensures forall i :: 0 <= i < |HideReasons(o, b, regexTest)| && HideReasons(o, b, regexTest)[i].TagReason? ==>
      HideReasons(o, b, regexTest)[i].names == TagNames(o.hideTags.filters, b.tags, regexTest)
      && 0 < |HideReasons(o, b, regexTest)[i].names| <= |b.tags|
  {
    var l := LanguageReasons(o.hideLanguages, b);
    var c := CrossoverReasons(o.hideCrossovers, b);
    var a := AuthorReasons(o.hideAuthors, b);
    var t := TagReasons(o.hideTags, b, regexTest);
    Collected(l, c, a, t);
    var r := HideReasons(o, b, regexTest);
    assert r == l + c + a + t;
    forall i | 0 <= i < |r| && r[i].TagReason?
      ensures r[i].names == TagNames(o.hideTags.filters, b.tags, regexTest) && 0 < |r[i].names| <= |b.tags|
    {
      assert r[i] == t[0];
    }
  }

  /** A reason of a given kind is among the collected ones exactly when its rule
      produced one. */
  lemma PresentWhenProduced(l: seq<HideReason>, c: seq<HideReason>, a: seq<HideReason>, t: seq<HideReason>)
    requires OfRank(l, 0) && OfRank(c, 1) && OfRank(a, 2) && OfRank(t, 3)
    ensures (exists i :: 0 <= i < |l + c + a + t| && (l + c + a + t)[i].LanguageReason?) <==> |l| > 0
    ensures (exists i :: 0 <= i < |l + c + a + t| && (l + c + a + t)[i].CrossoverReason?) <==> |c| > 0
    ensures (exists i :: 0 <= i < |l + c + a + t| && (l + c + a + t)[i].AuthorReason?) <==> |a| > 0
    ensures (exists i :: 0 <= i < |l + c + a + t| && (l + c + a + t)[i].TagReason?) <==> |t| > 0
  {
    Collected(l, c, a, t);
    var r := l + c + a + t;
    if |l| > 0 { assert r[0].LanguageReason?; }
    if |c| > 0 { assert r[|l|].CrossoverReason?; }
    if |a| > 0 { assert r[|l| + |c|].AuthorReason?; }
    if |t| > 0 { assert r[|l| + |c| + |a|].TagReason?; }
    forall i | 0 <= i < |r|
      ensures r[i].LanguageReason? ==> |l| > 0
      ensures r[i].CrossoverReason? ==> |c| > 0
      ensures r[i].AuthorReason? ==> |a| > 0
      ensures r[i].TagReason? ==> |t| > 0
    {
      assert Rank(r[i]) == 0 ==> r[i] == l[0];
      assert Rank(r[i]) == 1 ==> r[i] == c[0];
      assert Rank(r[i]) == 2 ==> r[i] == a[0];
      assert Rank(r[i]) == 3 ==> r[i] == t[0];
    }
  }

  /** A language reason appears for a non-empty language that no `show` entry is
      labelled with. */
  lemma HideByLanguage(o: HideOptions, b: Blurb, regexTest: RegexTest)
    ensures (exists i :: 0 <= i < |HideReasons(o, b, regexTest)| && HideReasons(o, b, regexTest)[i].LanguageReason?) <==>
      o.hideLanguages.enabled && b.language.Some? && b.language.value != ""
      && forall k :: 0 <= k < |o.hideLanguages.show| ==> o.hideLanguages.show[k] != b.language.value
  {
    var l := LanguageReasons(o.hideLanguages, b);
    var c := CrossoverReasons(o.hideCrossovers, b);
    var a := AuthorReasons(o.hideAuthors, b);
    var t := TagReasons(o.hideTags, b, regexTest);
    PresentWhenProduced(l, c, a, t);
    assert HideReasons(o, b, regexTest) == l + c + a + t;
  }

  /** A crossover reason appears for more fandoms than the maximum. */
  lemma HideByCrossover(o: HideOptions, b: Blurb, regexTest: RegexTest)
    ensures (exists i :: 0 <= i < |HideReasons(o, b, regexTest)| && HideReasons(o, b, regexTest)[i].CrossoverReason?) <==>
      o.hideCrossovers.enabled && |b.fandoms| > o.hideCrossovers.maxFandoms
  {
    var l := LanguageReasons(o.hideLanguages, b);
    var c := CrossoverReasons(o.hideCrossovers, b);
    var a := AuthorReasons(o.hideAuthors, b);
    var t := TagReasons(o.hideTags, b, regexTest);
    PresentWhenProduced(l, c, a, t);
    assert HideReasons(o, b, regexTest) == l + c + a + t;
  }

  /** An author reason appears when at least one author is matched to a filter and
      none is matched to an inverted one. */
  lemma HideByAuthor(o: HideOptions, b: Blurb, regexTest: RegexTest)
    ensures (exists i :: 0 <= i < |HideReasons(o, b, regexTest)| && HideReasons(o, b, regexTest)[i].AuthorReason?) <==>
      o.hideAuthors.enabled
      && (forall i :: 0 <= i < |b.authors| && AuthorMatch(o.hideAuthors.filters, b.authors[i]).Some? ==>
            !AuthorMatch(o.hideAuthors.filters, b.authors[i]).value.invert)
      && (exists i :: 0 <= i < |b.authors| && AuthorMatch(o.hideAuthors.filters, b.authors[i]).Some?)
  {
    var l := LanguageReasons(o.hideLanguages, b);
    var c := CrossoverReasons(o.hideCrossovers, b);
    var a := AuthorReasons(o.hideAuthors, b);
    var t := TagReasons(o.hideTags, b, regexTest);
    AuthorRule(o.hideAuthors, b);
    PresentWhenProduced(l, c, a, t);
    assert HideReasons(o, b, regexTest) == l + c + a + t;
  }

  /** A tag reason appears when at least one tag is matched to a filter and none is
      matched to an inverted one. */
  lemma HideByTag(o: HideOptions, b: Blurb, regexTest: RegexTest)
    ensures (exists i :: 0 <= i < |HideReasons(o, b, regexTest)| && HideReasons(o, b, regexTest)[i].TagReason?) <==>
      o.hideTags.enabled
      && (forall i :: 0 <= i < |b.tags| && TagMatch(o.hideTags.filters, b.tags[i], regexTest).Some? ==>
            !TagMatch(o.hideTags.filters, b.tags[i], regexTest).value.invert)
      && (exists i :: 0 <= i < |b.tags| && TagMatch(o.hideTags.filters, b.tags[i], regexTest).Some?)
  {
    var l := LanguageReasons(o.hideLanguages, b);
    var c := CrossoverReasons(o.hideCrossovers, b);
    var a := AuthorReasons(o.hideAuthors, b);
    var t := TagReasons(o.hideTags, b, regexTest);
    TagRule(o.hideTags, b, regexTest);
    PresentWhenProduced(l, c, a, t);
    assert HideReasons(o, b, regexTest) == l + c + a + t;
  }

  /** A unit with every filter switched off hides nothing. */
  lemma DisabledHidesNothing(o: HideOptions, b: Blurb, regexTest: RegexTest)
    requires !Enabled(o)
    ensures HideReasons(o, b, regexTest) == []
  {
  }

  /** One inverted match shields the work from the author rule, whatever the other
      authors match. */
  lemma InvertedAuthorShields(o: HideOptions, b: Blurb, regexTest: RegexTest, i: nat)
    requires i < |b.authors|
    requires AuthorMatch(o.hideAuthors.filters, b.authors[i]).Some?
    requires AuthorMatch(o.hideAuthors.filters, b.authors[i]).value.invert
    ensures forall k :: 0 <= k < |HideReasons(o, b, regexTest)| ==> !HideReasons(o, b, regexTest)[k].AuthorReason?
  {
    HideByAuthor(o, b, regexTest);
  }

  /** The text of a reason as shown on the page. */
  function ReasonText(r: HideReason): string {
    match r
    case LanguageReason(l) => "Language: " + l
    case CrossoverReason(n) => "Too many fandoms: " + Decimal(n)
    case AuthorReason(labels) => "Author: " + JoinWith(labels, ", ")
    case TagReason(names) => "Tag: " + JoinWith(names, ", ")
  }

  /** Reasons of different kinds never read alike: their texts differ within the
      first two characters. */
  lemma ReasonTextKinds(a: HideReason, b: HideReason)
    requires Rank(a) != Rank(b)
    ensures ReasonText(a) != ReasonText(b)
  {
    var x, y := ReasonText(a), ReasonText(b);
    assert x[0] != y[0] || x[1] != y[1];
  }

  /** A language reason names its language and a crossover reason its fandom count:
      different values give different texts. */
  lemma ReasonTextValues(a: HideReason, b: HideReason)
    requires a != b && Rank(a) == Rank(b) && Rank(a) <= 1
    ensures ReasonText(a) != ReasonText(b)
  {
    if a.LanguageReason? {
      assert ReasonText(a)[10..] == a.language;
      assert ReasonText(b)[10..] == b.language;
    } else {
      assert ReasonText(a)[18..] == Decimal(a.fandomCount);
      assert ReasonText(b)[18..] == Decimal(b.fandomCount);
      DecimalInjective(a.fandomCount, b.fandomCount);
    }
  }
}
