/**
 The write-path slugifier of current-state scopes, the tie-refusing choice
 among scored candidates, and the tiers that use them.  Lower-casing is any
 function that leaves slug characters alone.
 */
module ScopeSlug {
  import opened Wrappers
  import CurrentState
  import LineEndings

  const MAX_SCOPE_LEN := 120
  const GLOBAL := "global"

  predicate Allowed(c: char) {
    'a' <= c <= 'z' || '0' <= c <= '9' || IsSeparator(c)
  }

  predicate IsSeparator(c: char) {
    c == '-' || c == '.' || c == '_' || c == ':' || c == '/'
  }

  predicate IsQuote(c: char) {
    c == '`' || c == '\'' || c == '"' || c == '<' || c == '>'
  }

  predicate OverAlphabet(s: string) {
    forall i | 0 <= i < |s| :: Allowed(s[i])
  }

  predicate SingleHyphens(s: string) {
    forall i | 0 <= i < |s| - 1 :: s[i] != '-' || s[i + 1] != '-'
  }

  ghost predicate LowerKeepsSlugs(lower: string -> string) {
    forall s | OverAlphabet(s) :: lower(s) == s
  }

  // ----- the steps -----

  function TrimLeft(s: string, drop: char -> bool): string {
    if s != "" && drop(s[0]) then TrimLeft(s[1..], drop) else s
  }

  function TrimRight(s: string, drop: char -> bool): string {
    if s != "" && drop(s[|s| - 1]) then TrimRight(s[..|s| - 1], drop) else s
  }

  function Trim(s: string, drop: char -> bool): string {
    TrimRight(TrimLeft(s, drop), drop)
  }

  function DropQuotes(s: string): string {
    if s == "" then "" else (if IsQuote(s[0]) then "" else [s[0]]) + DropQuotes(s[1..])
  }

  /** Each maximal run of characters outside the alphabet becomes one hyphen. */
  function HyphenateRuns(s: string): string {
    if s == "" then ""
    else if Allowed(s[0]) then [s[0]] + HyphenateRuns(s[1..])
    else if |s| > 1 && !Allowed(s[1]) then HyphenateRuns(s[1..])
    else "-" + HyphenateRuns(s[1..])
  }

  function CollapseHyphens(s: string): string {
    if s == "" then ""
    else if s[0] == '-' && |s| > 1 && s[1] == '-' then CollapseHyphens(s[1..])
    else [s[0]] + CollapseHyphens(s[1..])
  }

  function OrGlobal(s: string): string {
    if s == "" then GLOBAL else s
  }

  function Cut(s: string): string {
    if |s| <= MAX_SCOPE_LEN then s else s[..MAX_SCOPE_LEN]
  }

  function Slugify(value: string, lower: string -> string): string {
    var raw := lower(Trim(value, LineEndings.IsSpace));
    if raw == "" then GLOBAL
    else
      var clean := Trim(CollapseHyphens(HyphenateRuns(DropQuotes(raw))), IsSeparator);
      OrGlobal(Trim(Cut(clean), IsSeparator))
  }

  // ----- what a slug looks like -----

  ghost predicate WellFormed(s: string) {
    && 0 < |s| <= MAX_SCOPE_LEN && OverAlphabet(s) && SingleHyphens(s)
    && !IsSeparator(s[0]) && !IsSeparator(s[|s| - 1])
  }

  lemma {:induction false} TrimLeftProperties(s: string, drop: char -> bool)
    ensures var t := TrimLeft(s, drop);
            && |t| <= |s| && t == s[|s| - |t|..] && (t != "" ==> !drop(t[0]))
            && (s != "" && !drop(s[0]) ==> t == s)
  {
    if s != "" && drop(s[0]) {
      TrimLeftProperties(s[1..], drop);
    }
  }

  lemma {:induction false} TrimRightProperties(s: string, drop: char -> bool)
    ensures var t := TrimRight(s, drop);
            && |t| <= |s| && t == s[..|t|] && (t != "" ==> !drop(t[|t| - 1]))
            && (s != "" && !drop(s[|s| - 1]) ==> t == s)
    decreases |s|
  {
    if s != "" && drop(s[|s| - 1]) {
      TrimRightProperties(s[..|s| - 1], drop);
    }
  }

  /** Trimming takes a slice whose two ends are not dropped characters; it changes nothing on such a string. */
  lemma TrimProperties(s: string, drop: char -> bool) returns (from: nat)
    ensures var t := Trim(s, drop);
            && from + |t| <= |s| && t == s[from..from + |t|]
            && (t != "" ==> !drop(t[0]) && !drop(t[|t| - 1]))
            && (s != "" && !drop(s[0]) && !drop(s[|s| - 1]) ==> t == s)
  {
    TrimLeftProperties(s, drop);
    var u := TrimLeft(s, drop);
    TrimRightProperties(u, drop);
    from := |s| - |u|;
  }

  lemma {:induction false} HyphenateOverAlphabet(s: string)
    ensures OverAlphabet(HyphenateRuns(s))
  {
    if s != "" {
      HyphenateOverAlphabet(s[1..]);
    }
  }

  lemma {:induction false} CollapseProperties(s: string)
    requires OverAlphabet(s)
    ensures var t := CollapseHyphens(s);
            OverAlphabet(t) && SingleHyphens(t) && (s != "" ==> t != "" && t[0] == s[0])
  {
    if s != "" {
      CollapseProperties(s[1..]);
    }
  }

  /** Characters a slug keeps as they are: everything of the alphabet but the hyphen. */
  predicate Plain(c: char) {
    'a' <= c <= 'z' || '0' <= c <= '9' || c == '.' || c == '_' || c == ':' || c == '/'
  }

  function SkipGap(s: string): string {
    if s != "" && !Plain(s[0]) then SkipGap(s[1..]) else s
  }

  lemma {:induction false} SkipGapShorter(s: string)
    ensures |SkipGap(s)| <= |s| && (SkipGap(s) != "" ==> Plain(SkipGap(s)[0]))
  {
    if s != "" && !Plain(s[0]) { SkipGapShorter(s[1..]); }
  }

  /** One left-to-right pass: plain characters stay, and each maximal run of others becomes one hyphen. */
  function Squeeze(s: string): string
    decreases |s|
  {
    if s == "" then ""
    else if Plain(s[0]) then [s[0]] + Squeeze(s[1..])
    else
      SkipGapShorter(s[1..]);
      "-" + Squeeze(SkipGap(s[1..]))
  }

  lemma CollapseCons(c: char, t: string)
    ensures CollapseHyphens([c] + t) == if c == '-' && t != "" && t[0] == '-' then CollapseHyphens(t)
                                        else [c] + CollapseHyphens(t)
  {
    assert ([c] + t)[1..] == t;
  }

  lemma HyphenateCons(s: string)
    requires s != ""
    ensures HyphenateRuns(s) == if Allowed(s[0]) then [s[0]] + HyphenateRuns(s[1..])
                                else if |s| > 1 && !Allowed(s[1]) then HyphenateRuns(s[1..])
                                else "-" + HyphenateRuns(s[1..])
  {}

  lemma {:induction false} HyphenateFirst(s: string)
    requires s != ""
    ensures var h := HyphenateRuns(s); h != "" && h[0] == (if Plain(s[0]) then s[0] else '-')
    decreases |s|
  {
    if !Allowed(s[0]) && |s| > 1 && !Allowed(s[1]) { HyphenateFirst(s[1..]); }
  }

  /** The two steps together are that pass. */
  lemma {:induction false} StepsSqueeze(s: string)
    ensures CollapseHyphens(HyphenateRuns(s)) == Squeeze(s)
    decreases |s|
  {
    if s != "" {
      var rest := s[1..];
      StepsSqueeze(rest);
      if Plain(s[0]) {
        CollapseCons(s[0], HyphenateRuns(rest));
      } else {
        GapSqueezes(s);
      }
    }
  }

  /** A gap at the start becomes one hyphen. */
  lemma {:induction false} GapSqueezes(s: string)
    requires s != "" && !Plain(s[0]) && CollapseHyphens(HyphenateRuns(s[1..])) == Squeeze(s[1..])
    ensures CollapseHyphens(HyphenateRuns(s)) == "-" + Squeeze(SkipGap(s[1..]))
  {
    var rest := s[1..];
    if rest == "" {
      CollapseCons('-', "");
      assert HyphenateRuns(s) == "-" == ['-'] + "";
    } else {
      HyphenateFirst(rest);
      CollapseCons('-', HyphenateRuns(rest));
      assert ['-'] + HyphenateRuns(rest) == "-" + HyphenateRuns(rest);
      if Plain(rest[0]) {
        assert SkipGap(rest) == rest;
      } else {
        assert SkipGap(rest) == SkipGap(rest[1..]);
      }
    }
  }

  /** The characters of the trimmed and lower-cased value that are not quotes, in order. */
  lemma {:induction false} DropQuotesKeeps(s: string)
    ensures forall c :: multiset(DropQuotes(s))[c] == if c in ['`', '\'', '"', '<', '>'] then 0 else multiset(s)[c]
    ensures (forall i | 0 <= i < |s| :: s[i] !in ['`', '\'', '"', '<', '>']) ==> DropQuotes(s) == s
  {
    if s != "" {
      assert s == [s[0]] + s[1..];
      DropQuotesKeeps(s[1..]);
    }
  }

  lemma {:induction false} TrimRightKeepsHead(s: string, drop: char -> bool)
    requires s != "" && !drop(s[0])
    ensures TrimRight(s, drop) != ""
    decreases |s|
  {
    if drop(s[|s| - 1]) { TrimRightKeepsHead(s[..|s| - 1], drop); }
  }

  /**
   What a slug is made of: the value without quotes, each run of other
   characters one hyphen, its separators at the ends and what exceeds the length
   cut off.
   */
  lemma SlugIsSqueezed(value: string, lower: string -> string)
    ensures var plain := DropQuotes(lower(Trim(value, LineEndings.IsSpace)));
            var clean := Trim(Squeeze(plain), IsSeparator);
            Slugify(value, lower) == if clean == "" then "global"
                                     else Trim(if |clean| <= 120 then clean else clean[..120], IsSeparator)
  {
    var raw := lower(Trim(value, LineEndings.IsSpace));
    StepsSqueeze(DropQuotes(raw));
    SlugIsWellFormed(value, lower);
    var clean := Trim(Squeeze(DropQuotes(raw)), IsSeparator);
    if clean != "" {
      var _ := TrimProperties(Squeeze(DropQuotes(raw)), IsSeparator);
      TrimLeftProperties(Cut(clean), IsSeparator);
      TrimRightKeepsHead(Cut(clean), IsSeparator);
    }
  }

  lemma SliceKeepsShape(s: string, from: nat, to: nat)
    requires from <= to <= |s| && OverAlphabet(s) && SingleHyphens(s)
    ensures OverAlphabet(s[from..to]) && SingleHyphens(s[from..to])
  {}

  ghost predicate Shaped(s: string) {
    OverAlphabet(s) && SingleHyphens(s)
  }

  lemma TrimmedShape(s: string)
    requires Shaped(s)
    ensures var t := Trim(s, IsSeparator);
            Shaped(t) && |t| <= |s| && (t != "" ==> !IsSeparator(t[0]) && !IsSeparator(t[|t| - 1]))
  {
    var from := TrimProperties(s, IsSeparator);
    SliceKeepsShape(s, from, from + |Trim(s, IsSeparator)|);
  }

  lemma CutShape(s: string)
    requires Shaped(s)
    ensures Shaped(Cut(s)) && |Cut(s)| <= MAX_SCOPE_LEN
  {
    SliceKeepsShape(s, 0, |Cut(s)|);
    assert s[0..|Cut(s)|] == Cut(s);
  }

  lemma FinishedShape(shaped: string)
    requires Shaped(shaped)
    ensures WellFormed(OrGlobal(Trim(Cut(Trim(shaped, IsSeparator)), IsSeparator)))
  {
    TrimmedShape(shaped);
    CutShape(Trim(shaped, IsSeparator));
    TrimmedShape(Cut(Trim(shaped, IsSeparator)));
  }

  /**
   Every string slugifies to a well-formed scope: non-empty, at most 120
   characters of the alphabet, no double hyphen, no separator at either end.
   */
  lemma SlugIsWellFormed(value: string, lower: string -> string)
    ensures WellFormed(Slugify(value, lower))
  {
    var plain := DropQuotes(lower(Trim(value, LineEndings.IsSpace)));
    HyphenateOverAlphabet(plain);
    CollapseProperties(HyphenateRuns(plain));
    FinishedShape(CollapseHyphens(HyphenateRuns(plain)));
  }

  lemma {:induction false} PlainStepsAreIdentity(s: string)
    requires OverAlphabet(s) && SingleHyphens(s)
    ensures DropQuotes(s) == s && HyphenateRuns(s) == s && CollapseHyphens(s) == s
  {
    if s != "" {
      assert s == [s[0]] + s[1..];
      PlainStepsAreIdentity(s[1..]);
    }
  }

  /** A scope is a fixed point of the slugifier exactly when it is well formed. */
  lemma FixedIffWellFormed(s: string, lower: string -> string)
    requires LowerKeepsSlugs(lower)
    ensures Slugify(s, lower) == s <==> WellFormed(s)
  {
    SlugIsWellFormed(s, lower);
    if WellFormed(s) {
      var _ := TrimProperties(s, LineEndings.IsSpace);
      PlainStepsAreIdentity(s);
      var _ := TrimProperties(s, IsSeparator);
    }
  }

  /** So slugifying twice is slugifying once, on every string. */
  lemma SlugifyIsIdempotent(value: string, lower: string -> string)
    requires LowerKeepsSlugs(lower)
    ensures Slugify(Slugify(value, lower), lower) == Slugify(value, lower)
  {
    SlugIsWellFormed(value, lower);
    FixedIffWellFormed(Slugify(value, lower), lower);
  }

  // ----- choosing among scored candidates -----

  datatype Scored = Scored(candidate: string, score: int)

  /** `c` has the greatest positive score, and no other candidate has that score. */
  ghost predicate UniqueTop(scored: seq<Scored>, c: string) {
    exists i :: 0 <= i < |scored| && scored[i].candidate == c && IsTop(scored, i) && OnlyAt(scored, c, scored[i].score)
  }

  ghost predicate IsTop(scored: seq<Scored>, i: int)
    requires 0 <= i < |scored|
  {
    scored[i].score > 0 && forall j | 0 <= j < |scored| :: scored[j].score <= scored[i].score
  }

  ghost predicate OnlyAt(scored: seq<Scored>, c: string, score: int) {
    forall j | 0 <= j < |scored| && scored[j].score == score :: scored[j].candidate == c
  }

  /** What the loop knows of the entries before `n`. */
  ghost predicate BestSoFar(scored: seq<Scored>, n: nat, best: Option<string>, bestScore: int, tied: bool)
    requires n <= |scored|
  {
    && bestScore >= 0 && (best.None? <==> bestScore == 0) && (best.None? ==> !tied)
    && (forall j | 0 <= j < n :: scored[j].score <= bestScore)
    && (best.Some? ==> exists i :: 0 <= i < n && scored[i] == Scored(best.value, bestScore))
    && (best.Some? ==> (tied <==> exists j :: 0 <= j < n && scored[j].score == bestScore
                                    && scored[j].candidate != best.value))
  }

  method UniqueBest(scored: seq<Scored>) returns (r: Option<string>)
    ensures r.Some? ==> UniqueTop(scored, r.value)
    ensures r.None? ==> forall c :: !UniqueTop(scored, c)
  {
    var best: Option<string>, bestScore, tied := None, 0, false;
    for n := 0 to |scored|
      invariant BestSoFar(scored, n, best, bestScore, tied)
    {
      var s := scored[n];
      if s.score > 0 {
        if s.score > bestScore {
          best, bestScore, tied := Some(s.candidate), s.score, false;
        } else if s.score == bestScore && best != Some(s.candidate) {
          tied := true;
        }
      }
    }
    BestDecides(scored, best, bestScore, tied);
    r := if tied then None else best;
  }

  lemma BestDecides(scored: seq<Scored>, best: Option<string>, bestScore: int, tied: bool)
    requires BestSoFar(scored, |scored|, best, bestScore, tied)
    ensures best.Some? && !tied ==> UniqueTop(scored, best.value)
    ensures best.None? || tied ==> forall c :: !UniqueTop(scored, c)
  {
    if best.Some? {
      var i :| 0 <= i < |scored| && scored[i] == Scored(best.value, bestScore);
      assert IsTop(scored, i);
    }
  }

  /** At most one candidate can be the unique best one. */
  lemma UniqueTopIsUnique(scored: seq<Scored>, c: string, d: string)
    requires UniqueTop(scored, c) && UniqueTop(scored, d)
    ensures c == d
  {}

  // ----- the tiers -----

  datatype Source = ScopeHint | Marker | Lineage | HubAlias | ClassifyMetadata | KeywordHeuristic | GlobalFallback

  datatype Resolution = Resolution(scope: string, source: Source)

  predicate Given(s: string) {
    Trim(s, LineEndings.IsSpace) != ""
  }

  /** What the lineage tier may yield: a unique best scope that is not the global one. */
  ghost predicate LineageScope(lineage: seq<Scored>, scope: string) {
    UniqueTop(lineage, scope) && scope != "" && scope != GLOBAL
  }

  /** What the hub tier may yield: the slug of a unique best title, unless it is the global scope. */
  ghost predicate HubScope(hubs: seq<Scored>, lower: string -> string, scope: string) {
    scope != GLOBAL && exists title :: UniqueTop(hubs, title) && title != "" && scope == Slugify(title, lower)
  }

  /** The two table tiers: lineage first, then hubs. */
  method MatchTables(lineage: seq<Scored>, hubs: seq<Scored>, lower: string -> string) returns (r: Option<Resolution>)
    ensures AnyLineage(lineage) ==> r.Some? && r.value.source == Lineage && LineageScope(lineage, r.value.scope)
    ensures !AnyLineage(lineage) && AnyHub(hubs, lower) ==>
              r.Some? && r.value.source == HubAlias && HubScope(hubs, lower, r.value.scope)
    ensures !AnyLineage(lineage) && !AnyHub(hubs, lower) ==> r.None?
  {
    var known := UniqueBest(lineage);
    if known.Some? && known.value != "" && known.value != GLOBAL {
      assert LineageScope(lineage, known.value);
      return Some(Resolution(known.value, Lineage));
    }
    forall s ensures !LineageScope(lineage, s) {
      if UniqueTop(lineage, s) && known.Some? { UniqueTopIsUnique(lineage, s, known.value); }
    }
    var hub := UniqueBest(hubs);
    if hub.Some? && hub.value != "" && Slugify(hub.value, lower) != GLOBAL {
      assert HubScope(hubs, lower, Slugify(hub.value, lower));
      return Some(Resolution(Slugify(hub.value, lower), HubAlias));
    }
    forall s ensures !HubScope(hubs, lower, s) {
      if title :| UniqueTop(hubs, title) && title != "" && s == Slugify(title, lower) && hub.Some? {
        UniqueTopIsUnique(hubs, title, hub.value);
      }
    }
    r := None;
  }

  /** The text tiers after the tables: classification metadata, keyword heuristic, then the global scope. */
  function Fallback(topic: string, domain: string, lower: string -> string): Resolution {
    if Given(topic) then Resolution(Slugify(topic, lower), ClassifyMetadata)
    else if Given(domain) then Resolution(Slugify(domain, lower), KeywordHeuristic)
    else Resolution(GLOBAL, GlobalFallback)
  }

  ghost predicate AnyLineage(lineage: seq<Scored>) {
    exists s :: LineageScope(lineage, s)
  }

  ghost predicate AnyHub(hubs: seq<Scored>, lower: string -> string) {
    exists s :: HubScope(hubs, lower, s)
  }

  /** The tiers in order, the first that yields a scope winning. */
  ghost predicate Resolves(hint: string, marker: string, lineage: seq<Scored>, hubs: seq<Scored>, topic: string,
        domain: string, lower: string -> string, r: Resolution) {
    if Given(hint) then r == Resolution(Slugify(hint, lower), ScopeHint)
    else if Given(marker) then r == Resolution(Slugify(marker, lower), Marker)
    else if AnyLineage(lineage) then r.source == Lineage && LineageScope(lineage, r.scope)
    else if AnyHub(hubs, lower) then r.source == HubAlias && HubScope(hubs, lower, r.scope)
    else r == Fallback(topic, domain, lower)
  }

  /** `lineage` and `hubs` are the scored rows of the two table tiers, empty where a tier is not consulted. */
  method ResolveScope(hint: string, marker: string, lineage: seq<Scored>, hubs: seq<Scored>, topic: string,
        domain: string, lower: string -> string)
    returns (r: Resolution)
    ensures Resolves(hint, marker, lineage, hubs, topic, domain, lower, r)
  {
    if Given(hint) {
      return Resolution(Slugify(hint, lower), ScopeHint);
    }
    if Given(marker) {
      return Resolution(Slugify(marker, lower), Marker);
    }
    var matched := MatchTables(lineage, hubs, lower);
    if matched.Some? {
      return matched.value;
    }
    if Given(topic) {
      return Resolution(Slugify(topic, lower), ClassifyMetadata);
    }
    if Given(domain) {
      return Resolution(Slugify(domain, lower), KeywordHeuristic);
    }
    return Resolution(GLOBAL, GlobalFallback);
  }

  /** Some candidate other than the empty and the global scope has the greatest positive score alone. */
  ghost predicate ClearWinner(lineage: seq<Scored>, s: string) {
    && s != "" && s != "global"
    && exists i :: 0 <= i < |lineage| && lineage[i].candidate == s && lineage[i].score > 0
                   && forall j | 0 <= j < |lineage| ::
                        lineage[j].score < lineage[i].score || lineage[j] == lineage[i]
  }

  /** Which tier decides, and what it yields: blank texts do not count, and neither do ties or the global scope. */
  lemma TiersDecide(hint: string, marker: string, lineage: seq<Scored>, hubs: seq<Scored>, topic: string,
        domain: string, lower: string -> string, r: Resolution)
    requires Resolves(hint, marker, lineage, hubs, topic, domain, lower, r)
    ensures var known := exists s :: ClearWinner(lineage, s);
            && (r.source == ScopeHint <==> !LineEndings.Blank(hint))
            && (r.source == Marker <==> LineEndings.Blank(hint) && !LineEndings.Blank(marker))
            && (r.source == Lineage <==> LineEndings.Blank(hint) && LineEndings.Blank(marker) && known)
            && (r.source == Lineage ==> ClearWinner(lineage, r.scope))
            && (r.source == HubAlias ==> r.scope != "global" && !known)
            && (r.source == ClassifyMetadata ==> !LineEndings.Blank(topic))
            && (r.source == KeywordHeuristic ==> LineEndings.Blank(topic) && !LineEndings.Blank(domain))
            && (r.source == GlobalFallback ==>
                  r.scope == "global" && LineEndings.Blank(topic) && LineEndings.Blank(domain))
            && (r.source == ScopeHint ==> r.scope == Slugify(hint, lower))
            && (r.source == Marker ==> r.scope == Slugify(marker, lower))
            && (r.source == ClassifyMetadata ==> r.scope == Slugify(topic, lower))
            && (r.source == KeywordHeuristic ==> r.scope == Slugify(domain, lower))
  {
    GivenIffNotBlank(hint);
    GivenIffNotBlank(marker);
    GivenIffNotBlank(topic);
    GivenIffNotBlank(domain);
    forall s ensures LineageScope(lineage, s) <==> ClearWinner(lineage, s) { WinnerIsLineageScope(lineage, s); }
  }

  lemma WinnerIsLineageScope(lineage: seq<Scored>, s: string)
    ensures LineageScope(lineage, s) <==> ClearWinner(lineage, s)
  {
    if UniqueTop(lineage, s) {
      var i :| 0 <= i < |lineage| && lineage[i].candidate == s && IsTop(lineage, i)
               && OnlyAt(lineage, s, lineage[i].score);
      forall j | 0 <= j < |lineage| ensures lineage[j].score < lineage[i].score || lineage[j] == lineage[i] {}
    }
    if ClearWinner(lineage, s) {
      var i :| 0 <= i < |lineage| && lineage[i].candidate == s && lineage[i].score > 0
               && forall j | 0 <= j < |lineage| :: lineage[j].score < lineage[i].score || lineage[j] == lineage[i];
      assert IsTop(lineage, i) && OnlyAt(lineage, s, lineage[i].score);
    }
  }

  lemma GivenIffNotBlank(s: string)
    ensures Given(s) <==> !LineEndings.Blank(s)
  {
    var t := TrimLeft(s, LineEndings.IsSpace);
    TrimLeftBlank(s);
    TrimLeftProperties(s, LineEndings.IsSpace);
    if t != "" { TrimRightKeepsHead(t, LineEndings.IsSpace); }
  }

  lemma {:induction false} TrimLeftBlank(s: string)
    ensures TrimLeft(s, LineEndings.IsSpace) == "" <==> LineEndings.Blank(s)
  {
    if s != "" {
      TrimLeftBlank(s[1..]);
      LineEndings.BlankCons(s);
    }
  }

  /** If the stored scopes are well formed, so is every resolved one, whatever tier it came from. */
  lemma ResolvedIsWellFormed(hint: string, marker: string, lineage: seq<Scored>, hubs: seq<Scored>, topic: string,
        domain: string, lower: string -> string, r: Resolution)
    requires Resolves(hint, marker, lineage, hubs, topic, domain, lower, r)
    requires forall s | s in lineage :: WellFormed(s.candidate)
    ensures WellFormed(r.scope)
  {
    if Given(hint) {
      SlugIsWellFormed(hint, lower);
    } else if Given(marker) {
      SlugIsWellFormed(marker, lower);
    } else if AnyLineage(lineage) || AnyHub(hubs, lower) {
      TableScopeWellFormed(lineage, hubs, lower, r);
    } else {
      FallbackWellFormed(topic, domain, lower);
    }
  }

  lemma FallbackWellFormed(topic: string, domain: string, lower: string -> string)
    ensures WellFormed(Fallback(topic, domain, lower).scope)
  {
    SlugIsWellFormed(topic, lower);
    SlugIsWellFormed(domain, lower);
  }

  /** Stored scopes are reused as they are, and hub titles are slugified. */
  lemma TableScopeWellFormed(lineage: seq<Scored>, hubs: seq<Scored>, lower: string -> string, r: Resolution)
    requires if r.source == Lineage then LineageScope(lineage, r.scope) else HubScope(hubs, lower, r.scope)
    requires forall s | s in lineage :: WellFormed(s.candidate)
    ensures WellFormed(r.scope)
  {
    if r.source == Lineage {
      var i :| 0 <= i < |lineage| && lineage[i].candidate == r.scope;
      assert lineage[i] in lineage;
    } else {
      var title :| UniqueTop(hubs, title) && title != "" && r.scope == Slugify(title, lower);
      SlugIsWellFormed(title, lower);
    }
  }

  // ----- stored scopes over whole runs -----

  /** The lineage tier scores the scopes, other than the global one, of the workspace's active anchors. */
  ghost predicate FromAnchors(st: CurrentState.State, workspace: string, lineage: seq<Scored>) {
    forall s | s in lineage :: exists a ::
      a in st.anchors && a.status == CurrentState.Active && a.workspace == workspace && a.scope == s.candidate != GLOBAL
  }

  /** The call's scope is what the tiers resolve over the anchors the call finds. */
  ghost predicate ScopeFrom(st: CurrentState.State, call: CurrentState.Call, lower: string -> string) {
    exists hint, marker, lineage, hubs, topic, domain, r ::
      Resolves(hint, marker, lineage, hubs, topic, domain, lower, r)
      && FromAnchors(st, call.workspace, lineage) && r.scope == call.scope
  }

  /** Every call that reaches the resolver brings a scope resolved over the tables of that moment. */
  ghost predicate ScopesResolved(st: CurrentState.State, ops: seq<CurrentState.Op>, lower: string -> string)
    decreases |ops|
  {
    ops == []
    || ((ops[0].Resolve? && CurrentState.Gate(ops[0].call) == None ==> ScopeFrom(st, ops[0].call, lower))
        && ScopesResolved(CurrentState.Apply(st, ops[0]), ops[1..], lower))
  }

  ghost predicate StoredScopesOk(st: CurrentState.State) {
    && (forall a | a in st.anchors :: WellFormed(a.scope))
    && (forall id | id in st.items && st.items[id].scope.Some? :: WellFormed(st.items[id].scope.value))
  }

  lemma CallScopeWellFormed(st: CurrentState.State, call: CurrentState.Call, lower: string -> string)
    requires StoredScopesOk(st) && ScopeFrom(st, call, lower)
    ensures WellFormed(call.scope)
  {
    var hint, marker, lineage, hubs, topic, domain, r :|
      Resolves(hint, marker, lineage, hubs, topic, domain, lower, r)
      && FromAnchors(st, call.workspace, lineage) && r.scope == call.scope;
    ResolvedIsWellFormed(hint, marker, lineage, hubs, topic, domain, lower, r);
  }

  lemma StepKeepsScopesOk(st: CurrentState.State, call: CurrentState.Call)
    requires StoredScopesOk(st) && (CurrentState.Gate(call) == None ==> WellFormed(call.scope))
    ensures StoredScopesOk(CurrentState.Step(st, call).0)
  {
    var after := CurrentState.Step(st, call).0;
    forall a | a in after.anchors ensures WellFormed(a.scope) {
      var i :| 0 <= i < |after.anchors| && after.anchors[i] == a;
      if i < |st.anchors| { assert st.anchors[i] in st.anchors && a.scope == st.anchors[i].scope; }
    }
  }

  /** Hence stored scopes are well formed in every state of every run from empty tables, whichever tiers are used. */
  lemma {:induction false} RunKeepsScopesOk(st: CurrentState.State, ops: seq<CurrentState.Op>, lower: string -> string)
    requires StoredScopesOk(st) && ScopesResolved(st, ops, lower)
    ensures StoredScopesOk(CurrentState.Run(st, ops))
    decreases |ops|
  {
    if ops != [] {
      match ops[0] {
        case SaveItem(_, _, _) =>
        case Resolve(call) =>
          if CurrentState.Gate(call) == None { CallScopeWellFormed(st, call, lower); }
          StepKeepsScopesOk(st, call);
      }
      RunKeepsScopesOk(CurrentState.Apply(st, ops[0]), ops[1..], lower);
    }
  }
}
