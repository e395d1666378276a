/**
 * The content classifier (categorizer.py): the ordered rules of
 * `categorize_text_rule_based`, and `categorize`, which falls back on the
 * AI adapter only when the rules end in `text`.
 */
module Categorizer {
  import opened Wrappers
  import opened Chars
  import opened PyStr
  import opened Categories
  import opened PathModel
  import opened Patterns
  import opened Settings
  import opened AiClient

  /** The rules of the classifier, one per test it makes. */
  datatype Rule =
    | Blank | ImagePath | UrlForm | EmailForm | PhoneForm | PathForm
    | Indentation | CodeMarker | Fallback

  /** The order in which the rules are tried; the first that applies decides. */
  const RuleOrder: seq<Rule> :=
    [Blank, ImagePath, UrlForm, EmailForm, PhoneForm, PathForm, Indentation, CodeMarker, Fallback]

  /** The outcome of every test of the classifier on one stripped text. */
  datatype Signals = Signals(blank: bool, image: bool, url: bool, email: bool,
                             phone: bool, path: bool, indent: bool, marker: bool)

  /** Runs every test on the stripped text `t`. */
  function SignalsOf(t: string): (s: Signals)
    ensures s.blank <==> t == []
  {
    Signals(t == [], IsImageFile(t), UrlPattern(t), EmailPattern(t), PhoneRule(t),
            FilepathPattern(t), IndentHeuristic(t), CodeSearch(t))
  }

  /** Whether `rule` applies, given the outcome of the tests. */
  predicate Fires(rule: Rule, s: Signals) {
    match rule
    case Blank => s.blank
    case ImagePath => s.image
    case UrlForm => s.url
    case EmailForm => s.email
    case PhoneForm => s.phone
    case PathForm => s.path
    case Indentation => s.indent
    case CodeMarker => s.marker
    case Fallback => true
  }

  /** The category a rule assigns when it decides. */
  function Verdict(rule: Rule): Category {
    match rule
    case Blank => Text
    case ImagePath => Image
    case UrlForm => Url
    case EmailForm => Email
    case PhoneForm => Phone
    case PathForm => Filepath
    case Indentation => Code
    case CodeMarker => Code
    case Fallback => Text
  }

  /** The if-chain of `categorize_text_rule_based`, over the test outcomes. */
  function Decide(s: Signals): Category {
    if s.blank then Text
    else if s.image then Image
    else if s.url then Url
    else if s.email then Email
    else if s.phone then Phone
    else if s.path then Filepath
    else if s.indent then Code
    else if s.marker then Code
    else Text
  }

  /** `categorize_text_rule_based`: the rules applied to the stripped text. */
  function RuleBased(text: string): (c: Category)
    ensures AllSpace(text) ==> c == Text
    ensures c == Image <==> !AllSpace(text) && IsImageFile(Strip(text))
  {
    Decide(SignalsOf(Strip(text)))
  }

  /**
   * Precedence: the category is the verdict of the first rule, in
   * `RuleOrder`, that applies.
   */
  lemma FirstFiringRuleDecides(s: Signals, k: nat)
    requires k < |RuleOrder|
    requires Fires(RuleOrder[k], s)
    requires forall j :: 0 <= j < k ==> !Fires(RuleOrder[j], s)
    ensures Decide(s) == Verdict(RuleOrder[k])
  {
    if k > 0 { assert !Fires(RuleOrder[0], s); }
    if k > 1 { assert !Fires(RuleOrder[1], s); }
    if k > 2 { assert !Fires(RuleOrder[2], s); }
    if k > 3 { assert !Fires(RuleOrder[3], s); }
    if k > 4 { assert !Fires(RuleOrder[4], s); }
    if k > 5 { assert !Fires(RuleOrder[5], s); }
    if k > 6 { assert !Fires(RuleOrder[6], s); }
    if k > 7 { assert !Fires(RuleOrder[7], s); }
  }

  /** The verdict of the first rule of `rules` that fires; `text` when none does. */
  function FirstVerdict(rules: seq<Rule>, s: Signals): Category {
    if rules == [] then Text
    else if Fires(rules[0], s) then Verdict(rules[0])
    else FirstVerdict(rules[1..], s)
  }

  /** The if-chain is the scan of `RuleOrder` for the first rule that fires. */
  lemma {:induction false} DecideIsFirstVerdict(s: Signals)
    ensures Decide(s) == FirstVerdict(RuleOrder, s)
  {
    var k :| 0 <= k < |RuleOrder| && Fires(RuleOrder[k], s) && forall j :: 0 <= j < k ==> !Fires(RuleOrder[j], s)
      by { FirstFiringExists(s); }
    FirstFiringRuleDecides(s, k);
    FirstVerdictAt(RuleOrder, s, k);
  }

  /** Some rule of `RuleOrder` fires first: the fallback always fires. */
  lemma FirstFiringExists(s: Signals)
    ensures exists k :: 0 <= k < |RuleOrder| && Fires(RuleOrder[k], s)
                        && forall j :: 0 <= j < k ==> !Fires(RuleOrder[j], s)
  {
    var k := 0;
    while k < |RuleOrder| && !Fires(RuleOrder[k], s)
      invariant 0 <= k <= |RuleOrder|
      invariant forall j :: 0 <= j < k ==> !Fires(RuleOrder[j], s)
      decreases |RuleOrder| - k
    {
      k := k + 1;
    }
    assert Fires(RuleOrder[8], s);
  }

  /** The scan stops at the first rule that fires. */
  lemma {:induction false} FirstVerdictAt(rules: seq<Rule>, s: Signals, k: nat)
    requires k < |rules| && Fires(rules[k], s)
    requires forall j :: 0 <= j < k ==> !Fires(rules[j], s)
    ensures FirstVerdict(rules, s) == Verdict(rules[k])
  {
    if k > 0 {
      assert !Fires(rules[0], s);
      FirstVerdictAt(rules[1..], s, k - 1);
    }
  }

  /** The same precedence, stated for the text itself. */
  lemma FirstFiringRuleClassifies(text: string, k: nat)
    requires k < |RuleOrder|
    requires Fires(RuleOrder[k], SignalsOf(Strip(text)))
    requires forall j :: 0 <= j < k ==> !Fires(RuleOrder[j], SignalsOf(Strip(text)))
    ensures RuleBased(text) == Verdict(RuleOrder[k])
  {
    FirstFiringRuleDecides(SignalsOf(Strip(text)), k);
  }

  /** Classifying already-stripped text again gives the same category. */
  lemma RuleBasedStripInvariant(text: string)
    ensures RuleBased(Strip(text)) == RuleBased(text)
  {
    StripIdempotent(text);
    assert Strip(Strip(text)) == Strip(text);
  }

  /**
   * An e-mail address is `email` unless it names an image file: the URL
   * rule, tried first, cannot accept it.
   */
  lemma EmailBeatsUrl(text: string)
    requires EmailPattern(Strip(text)) && !IsImageFile(Strip(text))
    ensures RuleBased(text) == Email
  {
    EmailIsNotUrl(Strip(text));
  }

  /**
   * Multi-line text that is neither an image path nor a file path is `code`
   * when the indentation heuristic holds: a newline rules out the URL,
   * e-mail and phone rules.
   */
  lemma IndentedLinesAreCode(text: string)
    requires '\n' in Strip(text)
    requires !IsImageFile(Strip(text)) && !FilepathPattern(Strip(text))
    requires IndentHeuristic(Strip(text))
    ensures RuleBased(text) == Code
  {
    var t := Strip(text);
    var w :| 0 <= w < |t| && t[w] == '\n';
    NewlineRulesOut(t, w);
    var sg := SignalsOf(t);
    assert !sg.blank && !sg.image && !sg.url && !sg.email && !sg.phone && !sg.path && sg.indent;
  }

  /** A line break inside stripped text rules out the URL, e-mail and phone rules. */
  lemma NewlineRulesOut(t: string, w: nat)
    requires IsTrimmed(t) && w < |t| && t[w] == '\n'
    ensures !UrlPattern(t) && !EmailPattern(t) && !PhoneRule(t)
  {
    assert IsSpace('\n');
    SpacedIsNotUrlOrEmail(t, w);
    PhoneRuleIff(t);
    assert !(IsDigit(t[w]) || t[w] in PhoneSeparators);
  }

  /** A stripped text that is a file name with an image extension is `image`. */
  lemma ImageNameIsImage(text: string, stem: string, ext: string)
    requires Strip(text) == stem + ext
    requires stem != [] && '/' !in stem && '/' !in ext
    requires |ext| >= 2 && ext[0] == '.' && '.' !in ext[1..]
    requires LowerAscii(ext) in ImageExtensions
    ensures RuleBased(text) == Image
  {
    ImageNameDetected(stem, ext);
  }

  /**
   * A `file:///` URL without percent escapes whose path has an image
   * extension is `image`, before the URL rule can see it.
   */
  lemma FileUrlImageIsImage(text: string, rest: string)
    requires Strip(text) == FileScheme + rest
    requires '%' !in rest && Extension(rest) in ImageExtensions
    ensures RuleBased(text) == Image
  {
    FileUrlExtension(rest);
  }

  /** `user@example.com` is an e-mail address: the URL pattern cannot cross the `@`. */
  lemma EmailExample(text: string)
    requires text == "user@example.com"
    ensures RuleBased(text) == Email
  {
    EmailExampleStripped(text);
    EmailExampleMatches(text);
    EmailExampleNotImage(text);
    EmailBeatsUrl(text);
  }

  lemma EmailExampleStripped(text: string)
    requires text == "user@example.com"
    ensures Strip(text) == text
  {
    assert !IsSpace(text[0]) && !IsSpace(text[|text| - 1]);
    StripTrimmed(text);
  }

  lemma EmailExampleMatches(text: string)
    requires text == "user@example.com"
    ensures EmailPattern(text)
  {
    EmailExampleSplit(text);
    EmailBodyIsLanguage(text);
  }

  lemma EmailExampleSplit(text: string)
    requires text == "user@example.com"
    ensures EmailSplit(text, 4, 12)
  {
    assert text[..4] == "user" && text[5..12] == "example" && text[13..] == "com";
  }

  lemma EmailExampleNotImage(text: string)
    requires text == "user@example.com"
    ensures !IsImageFile(text)
  {
    var stem, ext := "user@example", ".com";
    assert text == stem + ext;
    EmailExampleNameShape(stem, ext);
    PlainNameExtension(stem, ext);
  }

  lemma EmailExampleNameShape(stem: string, ext: string)
    requires stem == "user@example" && ext == ".com"
    ensures stem != [] && '/' !in stem && '/' !in ext
    ensures |ext| >= 2 && ext[0] == '.' && '.' !in ext[1..]
    ensures LowerAscii(ext) !in ImageExtensions
  {
    NoSlashInStem(stem);
    DotComLower(ext);
  }

  lemma NoSlashInStem(stem: string)
    requires stem == "user@example"
    ensures '/' !in stem
  {
    assert forall i :: 0 <= i < |stem| ==> stem[i] != '/';
  }

  lemma DotComLower(ext: string)
    requires ext == ".com"
    ensures '/' !in ext && '.' !in ext[1..]
    ensures LowerAscii(ext) == ext && ext !in ImageExtensions
  {
    assert ext[1] == 'c';
    if ext in ImageExtensions {
      ImageExtensionShape(ext);
    }
  }

  /** `file:///a.PNG` is an image, not a URL. */
  lemma UpperCaseImageUrl(text: string)
    requires text == "file:///a.PNG"
    ensures RuleBased(text) == Image
  {
    var rest := "a.PNG";
    UpperCaseImageUrlStripped(text);
    ExtensionOfUpperCasePng(rest);
    FileUrlImageIsImage(text, rest);
  }

  lemma UpperCaseImageUrlStripped(text: string)
    requires text == "file:///a.PNG"
    ensures Strip(text) == FileScheme + "a.PNG"
  {
    assert !IsSpace(text[0]) && !IsSpace(text[|text| - 1]);
    StripTrimmed(text);
  }

  lemma ExtensionOfUpperCasePng(name: string)
    requires name == "a.PNG"
    ensures Extension(name) == ".png"
  {
    BaseNameOfName(name);
    assert name == "a" + ".PNG";
    SuffixOf("a", ".PNG");
    assert LowerAscii(".PNG") == ".png";
  }


  /**
   * Text passing both phone conditions is `phone`: its characters rule out
   * the image, URL and e-mail rules tried before.
   */
  lemma PhoneNumberIsPhone(text: string)
    requires PhoneRule(Strip(text))
    ensures RuleBased(text) == Phone
  {
    var t := Strip(text);
    PhoneRuleIff(t);
    PhoneCharsRuleOutEarlierForms(t);
    DotlessNotImage(t);
    var sg := SignalsOf(t);
    assert !sg.blank && !sg.image && !sg.url && !sg.email && sg.phone;
  }

  /** The result of `categorize`, with the provider calls it made. */
  datatype Classification = Classification(category: Category, requests: seq<Request>)

  /**
   * `categorize`: the rule result, unless AI use is on, the `ai_provider`
   * setting is not "none", the rules said `text`, and the adapter answers.
   */
  function Categorize(text: string, useAi: bool, settings: Settings,
                      respond: Request -> Reply): (r: Classification)
    ensures !useAi || GetSetting(settings, "ai_provider", "none") == "none" ==>
              r == Classification(RuleBased(text), [])
    ensures RuleBased(text) != Text ==> r == Classification(RuleBased(text), [])
    ensures r.category != RuleBased(text) ==> RuleBased(text) == Text && r.category in AiCategories
    ensures r.requests != [] ==> useAi && RuleBased(text) == Text
    ensures r.category == Image <==> RuleBased(text) == Image
  {
    var rule := RuleBased(text);
    if !useAi || GetSetting(settings, "ai_provider", "none") == "none" then
      Classification(rule, [])
    else if rule == Text then
      var ai := CategorizeWithAi(text, settings, respond);
      Classification(ai.answer.GetOr(rule), ai.requests)
    else
      Classification(rule, [])
  }

  /** When the rules say `text` and a configured provider answers validly, its answer wins. */
  lemma AiAnswerReplacesText(text: string, settings: Settings, respond: Request -> Reply, p: Provider, c: Category)
    requires RuleBased(text) == Text
    requires ProviderNamed(GetSetting(settings, "ai_provider", "none")) == Some(p)
    requires GetSetting(settings, KeySetting(p), "") != ""
    requires respond(Request(p, ModelName(p), Take(text, PromptLimit), MaxOutputTokens, Temperature)).Answered?
    requires ValidateReply(respond(Request(p, ModelName(p), Take(text, PromptLimit), MaxOutputTokens, Temperature)).content) == Some(c)
    ensures Categorize(text, true, settings, respond).category == c
  {
  }

  /** When the adapter has no answer, the rule result `text` stands. */
  lemma NoAiAnswerKeepsText(text: string, useAi: bool, settings: Settings, respond: Request -> Reply)
    requires CategorizeWithAi(text, settings, respond).answer.None?
    ensures Categorize(text, useAi, settings, respond).category == RuleBased(text)
  {
  }
}
