/** services/gemini.ts: the filename classifier (a first-match keyword rule
    chain and a tag extractor), the constant analysis stub the gallery calls,
    and the filename-based analysis built from the two. */
module Gemini {
  import opened Types
  import opened Strings
  import opened Seqs

  /** `/(w1|w2|...)/i.test(s)`: a case-insensitive search for any of the words. */
  predicate TestI(s: string, words: seq<string>) {
    ContainsAny(ToLower(s), words)
  }

  /** The categories the filename classifier can answer. */
  const Categories: seq<string> :=
    ["Screenshots", "Photos", "Documents", "Downloads", "Selfies", "Travel", "Food", "Pets"]

  /** `categorizeByFilename`: the first rule whose keywords occur in the
      lower-cased name decides; with none, the photo is a plain photo. */
  function CategorizeByFilename(filename: string): (category: string)
    ensures category in Categories
  {
    var lower := ToLower(filename);
    if TestI(lower, ["screenshot", "screen", "capture"]) then "Screenshots"
    else if TestI(lower, ["photo", "img", "pic", "image"]) then "Photos"
    else if TestI(lower, ["document", "doc", "scan", "pdf"]) then "Documents"
    else if TestI(lower, ["download", "dwnld"]) then "Downloads"
    else if TestI(lower, ["selfie", "portrait"]) then "Selfies"
    else if TestI(lower, ["vacation", "travel", "trip"]) then "Travel"
    else if TestI(lower, ["food", "meal", "recipe"]) then "Food"
    else if TestI(lower, ["pet", "dog", "cat"]) then "Pets"
    else "Photos"
  }

  // ---------------------------------------------------------------------
  // The rule chain as a table, and first-match-wins

  /** The classifier's rules in the order they are tried: keywords and category. */
  const CategoryRules: seq<(seq<string>, string)> := [
    (["screenshot", "screen", "capture"], "Screenshots"),
    (["photo", "img", "pic", "image"], "Photos"),
    (["document", "doc", "scan", "pdf"], "Documents"),
    (["download", "dwnld"], "Downloads"),
    (["selfie", "portrait"], "Selfies"),
    (["vacation", "travel", "trip"], "Travel"),
    (["food", "meal", "recipe"], "Food"),
    (["pet", "dog", "cat"], "Pets")
  ]

  /** The category of the first rule of `rules`, from index `from` on, whose
      keywords occur in `lower`; `default` when there is none. */
  function FirstMatch(rules: seq<(seq<string>, string)>, from: nat, lower: string, default: string): string
    decreases |rules| - from
  {
    if from >= |rules| then default
    else if ContainsAny(lower, rules[from].0) then rules[from].1
    else FirstMatch(rules, from + 1, lower, default)
  }

  /** The first rule that fires decides, whatever later rules would say. */
  lemma {:induction false} FirstMatchFirstFiring(rules: seq<(seq<string>, string)>, from: nat, lower: string, default: string, i: int)
    requires from <= i < |rules| && ContainsAny(lower, rules[i].0)
    requires forall j :: from <= j < i ==> !ContainsAny(lower, rules[j].0)
    ensures FirstMatch(rules, from, lower, default) == rules[i].1
    decreases i - from
  {
    if from < i {
      FirstMatchFirstFiring(rules, from + 1, lower, default, i);
    }
  }

  /** With no rule firing the default is the answer. */
  lemma {:induction false} FirstMatchNone(rules: seq<(seq<string>, string)>, from: nat, lower: string, default: string)
    requires forall j :: from <= j < |rules| ==> !ContainsAny(lower, rules[j].0)
    ensures FirstMatch(rules, from, lower, default) == default
    decreases |rules| - from
  {
    if from < |rules| {
      FirstMatchNone(rules, from + 1, lower, default);
    }
  }

  /** The if-chain of `categorizeByFilename` is the rule table read top to
      bottom on the lower-cased name, with "Photos" as the default. */
  lemma CategorizeIsRuleTable(filename: string)
    ensures CategorizeByFilename(filename) == FirstMatch(CategoryRules, 0, ToLower(filename), "Photos")
  {
    var lower := ToLower(filename);
    ToLowerIdempotent(filename);
    var rs := CategoryRules;
    RuleTableTail(lower);
    assert FirstMatch(rs, 3, lower, "Photos") == if TestI(lower, ["download", "dwnld"]) then "Downloads" else FirstMatch(rs, 4, lower, "Photos");
    assert FirstMatch(rs, 2, lower, "Photos") == if TestI(lower, ["document", "doc", "scan", "pdf"]) then "Documents" else FirstMatch(rs, 3, lower, "Photos");
    assert FirstMatch(rs, 1, lower, "Photos") == if TestI(lower, ["photo", "img", "pic", "image"]) then "Photos" else FirstMatch(rs, 2, lower, "Photos");
  }

  /** The last four rules of the table, on an already lower-cased name. */
  lemma RuleTableTail(lower: string)
    requires ToLower(lower) == lower
    ensures FirstMatch(CategoryRules, 4, lower, "Photos") ==
      if TestI(lower, ["selfie", "portrait"]) then "Selfies"
      else if TestI(lower, ["vacation", "travel", "trip"]) then "Travel"
      else if TestI(lower, ["food", "meal", "recipe"]) then "Food"
      else if TestI(lower, ["pet", "dog", "cat"]) then "Pets"
      else "Photos"
  {
    var rs := CategoryRules;
    assert FirstMatch(rs, 8, lower, "Photos") == "Photos";
    assert FirstMatch(rs, 7, lower, "Photos") == if TestI(lower, ["pet", "dog", "cat"]) then "Pets" else "Photos";
    assert FirstMatch(rs, 6, lower, "Photos") == if TestI(lower, ["food", "meal", "recipe"]) then "Food" else FirstMatch(rs, 7, lower, "Photos");
    assert FirstMatch(rs, 5, lower, "Photos") == if TestI(lower, ["vacation", "travel", "trip"]) then "Travel" else FirstMatch(rs, 6, lower, "Photos");
  }

  /** First match wins: the category is that of the first rule that fires. */
  lemma CategorizeFirstMatchWins(filename: string, i: int)
    requires 0 <= i < |CategoryRules| && ContainsAny(ToLower(filename), CategoryRules[i].0)
    requires forall j :: 0 <= j < i ==> !ContainsAny(ToLower(filename), CategoryRules[j].0)
    ensures CategorizeByFilename(filename) == CategoryRules[i].1
  {
    CategorizeIsRuleTable(filename);
    FirstMatchFirstFiring(CategoryRules, 0, ToLower(filename), "Photos", i);
  }

  /** A name without any keyword is classified "Photos". */
  lemma CategorizeDefault(filename: string)
    requires forall j :: 0 <= j < |CategoryRules| ==> !ContainsAny(ToLower(filename), CategoryRules[j].0)
    ensures CategorizeByFilename(filename) == "Photos"
  {
    CategorizeIsRuleTable(filename);
    FirstMatchNone(CategoryRules, 0, ToLower(filename), "Photos");
  }

  /** The category depends only on the lower-cased name: names that differ
      only in the case of their letters are classified alike. */
  lemma CategorizeCaseInsensitive(a: string, b: string)
    requires ToLower(a) == ToLower(b)
    ensures CategorizeByFilename(a) == CategorizeByFilename(b)
    ensures CategorizeByFilename(a) == CategorizeByFilename(ToLower(a))
  {
    ToLowerIdempotent(a);
    CategorizeIsRuleTable(a);
    CategorizeIsRuleTable(b);
    CategorizeIsRuleTable(ToLower(a));
  }

  /** A screenshot is a screenshot even when its name also says "photo". */
  lemma ScreenshotBeatsPhoto(filename: string)
    requires Contains(ToLower(filename), "screenshot")
    ensures CategorizeByFilename(filename) == "Screenshots"
  {
    var lower := ToLower(filename);
    ToLowerIdempotent(filename);
    assert ["screenshot", "screen", "capture"][0] == "screenshot";
  }

  /** A word whose first two letters never stand side by side in the text does not occur in it. */
  lemma NotContainsByFirstTwo(s: string, pat: string)
    requires |pat| >= 2
    requires forall i :: 0 <= i < |s| - 1 ==> s[i] != pat[0] || s[i + 1] != pat[1]
    ensures !Contains(s, pat)
  {
    forall i | 0 <= i <= |s| - |pat|
      ensures !OccursAt(s, pat, i)
    {
      assert s[i..i + |pat|][0] == s[i] && s[i..i + |pat|][1] == s[i + 1];
    }
  }

  /** None of the words of a rule ahead of the travel rule occurs in "vacation". */
  lemma VacationMissesRule(j: int)
    requires 0 <= j < 5
    ensures !ContainsAny("vacation", CategoryRules[j].0)
  {
    var s := "vacation";
    if j == 0 {
      NotContainsByFirstTwo(s, "screenshot");
      NotContainsByFirstTwo(s, "screen");
      assert !OccursAt(s, "capture", 0) by { assert s[..7][0] != 'c'; }
      assert !OccursAt(s, "capture", 1) by { assert s[1..8][0] != 'c'; }
    } else if j == 1 {
      NotContainsByFirstTwo(s, "photo");
      NotContainsByFirstTwo(s, "img");
      NotContainsByFirstTwo(s, "pic");
      NotContainsByFirstTwo(s, "image");
    } else if j == 2 {
      NotContainsByFirstTwo(s, "document");
      NotContainsByFirstTwo(s, "doc");
      NotContainsByFirstTwo(s, "scan");
      NotContainsByFirstTwo(s, "pdf");
    } else if j == 3 {
      NotContainsByFirstTwo(s, "download");
      NotContainsByFirstTwo(s, "dwnld");
    } else {
      NotContainsByFirstTwo(s, "selfie");
      NotContainsByFirstTwo(s, "portrait");
    }
  }

  /** "vacation" is travel, not a pet, although it contains "cat". */
  lemma VacationIsTravel()
    ensures Contains("vacation", "cat")
    ensures CategorizeByFilename("vacation") == "Travel"
  {
    var s := "vacation";
    assert ToLower(s) == s;
    assert OccursAt(s, "cat", 2);
    assert OccursAt(s, "vacation", 0);
    forall j | 0 <= j < 5
      ensures !ContainsAny(ToLower(s), CategoryRules[j].0)
    {
      VacationMissesRule(j);
    }
    assert CategoryRules[5].0[0] == "vacation";
    CategorizeFirstMatchWins(s, 5);
  }

  // ---------------------------------------------------------------------
  // extractTags

  /** The tags `extractTags` can add, in the order it tests for them. */
  const TagOrder: seq<string> := ["screenshot", "dated", "travel", "portrait"]

  /** No tag rule fires for the name. */
  predicate NoTagRule(filename: string) {
    && !Contains(ToLower(filename), "screenshot")
    && !HasDigitRun(filename, 8)
    && !ContainsAny(ToLower(filename), ["vacation", "travel"])
    && !ContainsAny(ToLower(filename), ["selfie", "portrait"])
  }

  /** `extractTags`: pushes one tag per rule that fires, in rule order, and
      falls back to `["photo"]`. */
  method ExtractTags(filename: string) returns (tags: seq<string>)
    ensures tags != []
    ensures tags == ["photo"] <==> NoTagRule(filename)
    ensures !NoTagRule(filename) ==> IsSubsequence(tags, TagOrder) && NoDuplicates(tags)
    ensures "screenshot" in tags <==> Contains(ToLower(filename), "screenshot")
    ensures "dated" in tags <==> HasDigitRun(filename, 8)
    ensures "travel" in tags <==> ContainsAny(ToLower(filename), ["vacation", "travel"])
    ensures "portrait" in tags <==> ContainsAny(ToLower(filename), ["selfie", "portrait"])
  {
    var pushed: seq<string> := [];
    var lower := ToLower(filename);
    ToLowerIdempotent(filename);
    assert ["screenshot"][0] == "screenshot";
    ghost var s, d, t, p := TestI(lower, ["screenshot"]), HasDigitRun(filename, 8),
      TestI(lower, ["vacation", "travel"]), TestI(lower, ["selfie", "portrait"]);

    if TestI(lower, ["screenshot"]) {
      pushed := pushed + ["screenshot"];
    }
    assert pushed == Push([], "screenshot", s);
    if HasDigitRun(filename, 8) {
      pushed := pushed + ["dated"];
    }
    assert pushed == Push(Push([], "screenshot", s), "dated", d);
    if TestI(lower, ["vacation", "travel"]) {
      pushed := pushed + ["travel"];
    }
    if TestI(lower, ["selfie", "portrait"]) {
      pushed := pushed + ["portrait"];
    }
    assert pushed == Pushed(s, d, t, p);
    TagsInOrder(s, d, t, p);
    PushedTags(s, d, t, p);
    tags := if |pushed| > 0 then pushed else ["photo"];
  }

  /** `if (fire) tags.push(w)`. */
  function Push(a: seq<string>, w: string, fire: bool): seq<string> {
    if fire then a + [w] else a
  }

  /** The tags pushed when the four tests gave `s`, `d`, `t` and `p`. */
  function Pushed(s: bool, d: bool, t: bool, p: bool): seq<string> {
    Push(Push(Push(Push([], "screenshot", s), "dated", d), "travel", t), "portrait", p)
  }

  /** Each tag is among those pushed exactly when its test fired; nothing is
      pushed exactly when no test fired, and "photo" is never pushed. */
  lemma PushedTags(s: bool, d: bool, t: bool, p: bool)
    ensures ("screenshot" in Pushed(s, d, t, p) <==> s) && ("dated" in Pushed(s, d, t, p) <==> d)
    ensures ("travel" in Pushed(s, d, t, p) <==> t) && ("portrait" in Pushed(s, d, t, p) <==> p)
    ensures Pushed(s, d, t, p) == [] <==> !s && !d && !t && !p
    ensures "photo" !in Pushed(s, d, t, p)
  {
  }

  /** The tags kept by four independent tests, in test order, form a
      duplicate-free subsequence of TagOrder. */
  lemma TagsInOrder(s: bool, d: bool, t: bool, p: bool)
    ensures IsSubsequence(Pushed(s, d, t, p), TagOrder) && NoDuplicates(Pushed(s, d, t, p))
  {
    var e: seq<string> := [];
    var a := Push(e, "screenshot", s);
    var b := Push(a, "dated", d);
    var c := Push(b, "travel", t);
    PushIf(e, e, "screenshot", s);
    PushIf(a, e + ["screenshot"], "dated", d);
    PushIf(b, e + ["screenshot"] + ["dated"], "travel", t);
    PushIf(c, e + ["screenshot"] + ["dated"] + ["travel"], "portrait", p);
    assert e + ["screenshot"] + ["dated"] + ["travel"] + ["portrait"] == TagOrder;
    TagOrderDistinct();
    SubsequenceNoDuplicates(Pushed(s, d, t, p), TagOrder);
  }

  /** Pushing a word exactly when a test fires keeps a subsequence of the
      words tested so far. */
  lemma PushIf(a: seq<string>, b: seq<string>, w: string, fire: bool)
    requires IsSubsequence(a, b)
    ensures IsSubsequence(Push(a, w, fire), b + [w])
  {
    if fire {
      SubsequenceAppend(a, b, w);
    } else {
      SubsequenceWeaken(a, b, w);
    }
  }

  /** The four tags are distinct words. */
  lemma TagOrderDistinct()
    ensures NoDuplicates(TagOrder)
  {
    assert TagOrder[0][0] == 's' && TagOrder[1][0] == 'd' && TagOrder[2][0] == 't' && TagOrder[3][0] == 'p';
  }

  // ---------------------------------------------------------------------
  // The analyses

  /** `analyzeImageContent`: the stub the gallery calls; it answers the same
      analysis whatever image it is given. */
  function AnalyzeImageContent(base64Data: string, mimeType: string): AIAnalysis {
    AIAnalysis("Photos", ["photo"], "Photo uploaded", Some("Unknown"))
  }

  /** The stub ignores its input and classifies everything as a plain photo. */
  lemma AnalyzeImageContentConstant(data1: string, mime1: string, data2: string, mime2: string)
    ensures AnalyzeImageContent(data1, mime1) == AnalyzeImageContent(data2, mime2)
    ensures AnalyzeImageContent(data1, mime1).category == "Photos"
    ensures AnalyzeImageContent(data1, mime1).tags == ["photo"]
    ensures AnalyzeImageContent(data1, mime1).summary == "Photo uploaded"
    ensures AnalyzeImageContent(data1, mime1).season == Some("Unknown")
  {
  }

  /** `analyzeImageFromFile`: category and tags from the file name, and a
      summary "<category> - <name>". */
  method AnalyzeImageFromFile(file: LocalFile) returns (analysis: AIAnalysis)
    ensures analysis.category == CategorizeByFilename(file.name)
    ensures analysis.category in Categories
    ensures analysis.summary == analysis.category + " - " + file.name
    ensures analysis.season == Some("Unknown")
    ensures analysis.tags != []
    ensures analysis.tags == ["photo"] <==> NoTagRule(file.name)
    ensures !NoTagRule(file.name) ==> IsSubsequence(analysis.tags, TagOrder) && NoDuplicates(analysis.tags)
    ensures "screenshot" in analysis.tags <==> Contains(ToLower(file.name), "screenshot")
    ensures "dated" in analysis.tags <==> HasDigitRun(file.name, 8)
    ensures "travel" in analysis.tags <==> ContainsAny(ToLower(file.name), ["vacation", "travel"])
    ensures "portrait" in analysis.tags <==> ContainsAny(ToLower(file.name), ["selfie", "portrait"])
  {
    var category := CategorizeByFilename(file.name);
    var tags := ExtractTags(file.name);
    analysis := AIAnalysis(category, tags, category + " - " + file.name, Some("Unknown"));
  }
}
