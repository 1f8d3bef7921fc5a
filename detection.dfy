/**
 * Category detection (main.py `detect_category`): every stored category is scored by how many
 * of its keywords, and its name, occur in the lower-cased description; the first category with
 * the highest positive score is the detected one.
 */
module Detection {
  import opened Options
  import opened Text

  /** A stored GST category record (schemas.py `GSTCategory`). */
  datatype Category = Category(name: string, rate: real, keywords: seq<string>, active: bool)

  /** The strings scored for a category: its keywords in order, then its name. */
  function Entries(c: Category): seq<string> {
    c.keywords + [c.name]
  }

  /** One entry counts when its lower-cased form is non-empty and occurs in `text`. */
  predicate Matches(entry: string, text: string) {
    var k := LowerStr(entry);
    k != "" && Contains(text, k)
  }

  /** The number of entries that match `text`; repeated entries each count. */
  function CountMatches(entries: seq<string>, text: string): (n: nat)
    ensures n <= |entries|
  {
    if entries == [] then 0
    else CountMatches(entries[..|entries| - 1], text) + (if Matches(entries[|entries| - 1], text) then 1 else 0)
  }

  /** The score of category `c` for a raw (not yet lower-cased) description. */
  function Score(c: Category, description: string): nat {
    CountMatches(Entries(c), LowerStr(description))
  }

  // ---------------------------------------------------------------------------
  // Properties of the score
  // ---------------------------------------------------------------------------

  /** The positions of the entries that match. */
  function MatchingPositions(entries: seq<string>, text: string): set<nat> {
    set i: nat | i < |entries| && Matches(entries[i], text)
  }

  /** The score counts matching POSITIONS, so duplicated keywords are not collapsed. */
  lemma {:induction false} CountMatchesCountsPositions(entries: seq<string>, text: string)
    ensures CountMatches(entries, text) == |MatchingPositions(entries, text)|
  {
    if entries != [] {
      var n := |entries| - 1;
      var prefix := entries[..n];
      CountMatchesCountsPositions(prefix, text);
      if Matches(entries[n], text) {
        assert MatchingPositions(entries, text) == MatchingPositions(prefix, text) + {n};
      } else {
        assert MatchingPositions(entries, text) == MatchingPositions(prefix, text);
      }
    }
  }

  /** A category scores its matching keywords plus one when its own name matches. */
  lemma ScoreSplit(c: Category, description: string)
    ensures Score(c, description) ==
            CountMatches(c.keywords, LowerStr(description)) + (if Matches(c.name, LowerStr(description)) then 1 else 0)
  {
    assert Entries(c)[..|Entries(c)| - 1] == c.keywords;
  }

  /** Appending a keyword that matches raises the score by one, even when the keyword is already listed. */
  lemma DuplicateKeywordCounts(c: Category, description: string, k: string)
    requires Matches(k, LowerStr(description))
    ensures Score(c.(keywords := c.keywords + [k]), description) == Score(c, description) + 1
  {
    var c' := c.(keywords := c.keywords + [k]);
    ScoreSplit(c, description);
    ScoreSplit(c', description);
    assert c'.keywords[..|c'.keywords| - 1] == c.keywords;
  }

  lemma {:induction false} NothingMatchesEmpty(entries: seq<string>)
    ensures CountMatches(entries, "") == 0
  {
    if entries != [] {
      NothingMatchesEmpty(entries[..|entries| - 1]);
      ContainsInEmpty(LowerStr(entries[|entries| - 1]));
    }
  }

  /** An empty (or missing) description gives every category a score of zero. */
  lemma EmptyDescriptionScoresZero(c: Category)
    ensures Score(c, "") == 0
  {
    NothingMatchesEmpty(Entries(c));
  }

  lemma {:induction false} CountMatchesIgnoresCase(e1: seq<string>, e2: seq<string>, text: string)
    requires |e1| == |e2|
    requires forall i :: 0 <= i < |e1| ==> LowerStr(e1[i]) == LowerStr(e2[i])
    ensures CountMatches(e1, text) == CountMatches(e2, text)
  {
    if e1 != [] {
      var n := |e1| - 1;
      CountMatchesIgnoresCase(e1[..n], e2[..n], text);
      assert LowerStr(e1[n]) == LowerStr(e2[n]);
    }
  }

  /**
   * Matching ignores case on both sides: two categories whose entries agree after lower-casing
   * score the same against two descriptions that agree after lower-casing.
   */
  lemma ScoreIgnoresCase(c1: Category, d1: string, c2: Category, d2: string)
    requires LowerStr(d1) == LowerStr(d2)
    requires |c1.keywords| == |c2.keywords|
    requires forall i :: 0 <= i < |c1.keywords| ==> LowerStr(c1.keywords[i]) == LowerStr(c2.keywords[i])
    requires LowerStr(c1.name) == LowerStr(c2.name)
    ensures Score(c1, d1) == Score(c2, d2)
  {
    CountMatchesIgnoresCase(Entries(c1), Entries(c2), LowerStr(d1));
  }

  // ---------------------------------------------------------------------------
  // The detected category, as a specification
  // ---------------------------------------------------------------------------

  /** The highest score of any category (0 for no categories). */
  function MaxScore(cats: seq<Category>, description: string): (m: nat)
    ensures forall k :: 0 <= k < |cats| ==> Score(cats[k], description) <= m
    ensures m == 0 || exists k :: 0 <= k < |cats| && Score(cats[k], description) == m
  {
    if cats == [] then 0
    else
      var prefix := cats[..|cats| - 1];
      assert forall k :: 0 <= k < |prefix| ==> prefix[k] == cats[k];
      var rest := MaxScore(prefix, description);
      var last := Score(cats[|cats| - 1], description);
      if last > rest then last else rest
  }

  /** The first position whose score is `m`, or |cats| when there is none. */
  function FirstScoring(cats: seq<Category>, description: string, m: nat): (i: nat)
    ensures i <= |cats|
    ensures i < |cats| ==> Score(cats[i], description) == m
    ensures forall k :: 0 <= k < i ==> Score(cats[k], description) != m
  {
    if cats == [] then 0
    else if Score(cats[0], description) == m then 0
    else 1 + FirstScoring(cats[1..], description, m)
  }

  /** Position `i` holds a positive score that no category beats and that every earlier category falls short of. */
  ghost predicate IsFirstBest(cats: seq<Category>, description: string, i: int) {
    0 <= i < |cats| &&
    Score(cats[i], description) > 0 &&
    (forall k :: 0 <= k < |cats| ==> Score(cats[k], description) <= Score(cats[i], description)) &&
    (forall k :: 0 <= k < i ==> Score(cats[k], description) < Score(cats[i], description))
  }

  /** The position of the detected category: the first one reaching the maximum, if that maximum is positive. */
  function DetectIndex(description: string, cats: seq<Category>): (r: Option<nat>)
    ensures r.Some? ==> r.value < |cats|
  {
    var m := MaxScore(cats, description);
    if m == 0 then None else Some(FirstScoring(cats, description, m))
  }

  /**
   * Nothing is detected exactly when every category scores zero (an empty store included); otherwise
   * the detected position holds the first maximal score, and that score is positive.
   */
  lemma DetectIndexCharacterized(description: string, cats: seq<Category>)
    ensures DetectIndex(description, cats).None? <==> forall k :: 0 <= k < |cats| ==> Score(cats[k], description) == 0
    ensures DetectIndex(description, cats).Some? ==> IsFirstBest(cats, description, DetectIndex(description, cats).value)
  {
    var m := MaxScore(cats, description);
    if m != 0 {
      var i := FirstScoring(cats, description, m);
      assert Score(cats[i], description) == m;
    }
  }

  /** The detected category, if any. */
  function Detect(description: string, cats: seq<Category>): Option<Category> {
    match DetectIndex(description, cats)
    case None => None
    case Some(i) => Some(cats[i])
  }

  /** The first best position is unique: whichever position has that property is the one detected. */
  lemma FirstBestIsDetected(cats: seq<Category>, description: string, i: int)
    requires IsFirstBest(cats, description, i)
    ensures DetectIndex(description, cats) == Some(i)
    ensures Detect(description, cats) == Some(cats[i])
  {
    DetectIndexCharacterized(description, cats);
    var r := DetectIndex(description, cats);
    assert r.Some?;
    var j := r.value;
    assert IsFirstBest(cats, description, j);
  }

  // ---------------------------------------------------------------------------
  // The detector as the source runs it
  // ---------------------------------------------------------------------------

  /**
   * `detect_category`: one pass over the stored categories keeping the best so far, replaced only by a
   * strictly higher score. `categories` is what the store returned; a failed read stands as [].
   */
  method DetectCategory(description: Option<string>, categories: seq<Category>) returns (best: Option<Category>)
    ensures best == Detect(description.GetOr(""), categories)
    ensures best.None? <==> forall k :: 0 <= k < |categories| ==> Score(categories[k], description.GetOr("")) == 0
  {
    var raw := description.GetOr("");
    var text := LowerStr(raw);
    best := None;
    var bestScore: nat := 0;
    ghost var bestIndex := 0;
    for i := 0 to |categories|
      invariant forall k :: 0 <= k < i ==> Score(categories[k], raw) <= bestScore
      invariant best.None? ==> bestScore == 0
      invariant best.Some? ==> bestIndex < i && best.value == categories[bestIndex] &&
                               bestScore == Score(categories[bestIndex], raw) > 0 &&
                               forall k :: 0 <= k < bestIndex ==> Score(categories[k], raw) < bestScore
    {
      var cat := categories[i];
      var score := CountMatches(Entries(cat), text);
      assert score == Score(cat, raw);
      if score > bestScore {
        bestScore := score;
        best := Some(cat);
        bestIndex := i;
      }
    }
    if best.Some? {
      FirstBestIsDetected(categories, raw, bestIndex);
    }
  }
}
