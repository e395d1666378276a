/**
 * The pure parts of the AI fallback adapter (ai_client.py): provider
 * dispatch, the empty-key short-circuit, the bounded prompt excerpt, and
 * normalisation and validation of the provider's answer. The provider call
 * itself is the `respond` oracle, which may fail.
 */
module AiClient {
  import opened Wrappers
  import opened PyStr
  import opened Categories
  import opened Settings
  import opened Chars

  datatype Provider = OpenAi | Gemini

  /** One call out to a provider: the fixed prompt template is filled with `excerpt`. */
  datatype Request = Request(provider: Provider, model: string, excerpt: string,
                             maxTokens: nat, temperature: nat)

  /** What the provider call gives back: its text, or an exception of any kind. */
  datatype Reply = Answered(content: string) | Raised

  /** The answer, and the calls made to obtain it. */
  datatype AiResult = AiResult(answer: Option<Category>, requests: seq<Request>)

  /** Only this many leading characters of the text go into the prompt. */
  const PromptLimit: nat := 1000

  /** The output-token cap and temperature both providers are called with. */
  const MaxOutputTokens: nat := 20
  const Temperature: nat := 0

  /** The categories a provider may answer with: all but `image`. */
  const AiCategories: seq<Category> := [Url, Email, Code, Phone, Filepath, Text]

  function ModelName(p: Provider): string {
    match p
    case OpenAi => "gpt-3.5-turbo"
    case Gemini => "gemini-pro"
  }

  /** The setting that holds the provider's API key. */
  function KeySetting(p: Provider): string {
    match p
    case OpenAi => "openai_api_key"
    case Gemini => "gemini_api_key"
  }

  /** `ai_provider` setting values that select a provider; anything else selects none. */
  function ProviderNamed(name: string): (r: Option<Provider>)
    ensures r == Some(OpenAi) <==> name == "openai"
    ensures r == Some(Gemini) <==> name == "gemini"
  {
    if name == "openai" then Some(OpenAi)
    else if name == "gemini" then Some(Gemini)
    else None
  }

  /** The reply text as validated: stripped, then lower-cased. */
  function Normalize(raw: string): string {
    LowerAscii(Strip(raw))
  }

  /** The category a reply names, if it names one of the six allowed ones. */
  function ValidateReply(raw: string): (r: Option<Category>)
    ensures r.Some? ==> r.value in AiCategories && Name(r.value) == Normalize(raw)
    ensures r.None? ==> forall c :: c in AiCategories ==> Name(c) != Normalize(raw)
  {
    var n := Normalize(raw);
    var c := Parse(n);
    if c.Some? && c.value != Image then c
    else
      assert forall d :: d in AiCategories ==> Name(d) != n by {
        forall d | d in AiCategories ensures Name(d) != n {
          if Name(d) == n { ParseComplete(n, d); }
        }
      }
      None
  }

  /**
   * `categorize_with_openai` / `categorize_with_gemini`: no key, no call;
   * otherwise one call with the first `PromptLimit` characters, whose reply
   * counts only if it validates. A raised exception yields no answer.
   */
  function CategorizeWithProvider(p: Provider, text: string, settings: Settings,
                                  respond: Request -> Reply): (r: AiResult)
    ensures GetSetting(settings, KeySetting(p), "") == "" ==> r == AiResult(None, [])
    ensures GetSetting(settings, KeySetting(p), "") != "" ==>
              r.requests == [Request(p, ModelName(p), Take(text, PromptLimit), MaxOutputTokens, Temperature)]
    ensures r.answer.Some? ==> r.answer.value in AiCategories
    ensures r.requests != [] && respond(r.requests[0]).Raised? ==> r.answer.None?
    ensures r.requests != [] && respond(r.requests[0]).Answered? ==>
              r.answer == ValidateReply(respond(r.requests[0]).content)
  {
    if GetSetting(settings, KeySetting(p), "") == "" then AiResult(None, [])
    else
      var request := Request(p, ModelName(p), Take(text, PromptLimit), MaxOutputTokens, Temperature);
      var answer := match respond(request)
        case Raised => None
        case Answered(content) => ValidateReply(content);
      AiResult(answer, [request])
  }

  /** `categorize_with_ai`: dispatch on the `ai_provider` setting (default "none"). */
  function CategorizeWithAi(text: string, settings: Settings, respond: Request -> Reply): (r: AiResult)
    ensures ProviderNamed(GetSetting(settings, "ai_provider", "none")).None? ==> r == AiResult(None, [])
    ensures GetSetting(settings, "ai_provider", "none") == "openai" ==>
              r == CategorizeWithProvider(OpenAi, text, settings, respond)
    ensures GetSetting(settings, "ai_provider", "none") == "gemini" ==>
              r == CategorizeWithProvider(Gemini, text, settings, respond)
    ensures r.answer.Some? ==> r.answer.value in AiCategories
    ensures |r.requests| <= 1
  {
    match ProviderNamed(GetSetting(settings, "ai_provider", "none"))
    case None => AiResult(None, [])
    case Some(p) => CategorizeWithProvider(p, text, settings, respond)
  }

  /**
   * The provider's answer counts exactly when, stripped and lower-cased, it
   * names one of the six allowed categories; it then gives that category.
   */
  lemma ReplyDecidesAnswer(p: Provider, text: string, settings: Settings, respond: Request -> Reply,
                           content: string)
    requires GetSetting(settings, KeySetting(p), "") != ""
    requires respond(Request(p, ModelName(p), Take(text, PromptLimit), MaxOutputTokens, Temperature))
             == Answered(content)
    ensures forall c :: c in AiCategories && Name(c) == Normalize(content) ==>
              CategorizeWithProvider(p, text, settings, respond).answer == Some(c)
    ensures (forall c :: c in AiCategories ==> Name(c) != Normalize(content)) ==>
              CategorizeWithProvider(p, text, settings, respond).answer.None?
  {
    var r := CategorizeWithProvider(p, text, settings, respond);
    forall c | c in AiCategories && Name(c) == Normalize(content) ensures r.answer == Some(c) {
      NamesDistinct(c, ValidateReply(content).value);
    }
  }

  /** A reply with surrounding whitespace and capitals is accepted: " Code\n" is `code`. */
  lemma NormalizedReplyAccepted()
    ensures ValidateReply(" Code\n") == Some(Code)
  {
    var t := " Code\n";
    assert IsSpace(' ') && IsSpace('\n') && !IsSpace('C') && !IsSpace('e');
    assert StripOffset(t) == 1 by {
      assert SkipSpace(t, 1) == 1;
    }
    assert SkipSpaceBack(t, 1, 6) == 5 by {
      assert SkipSpaceBack(t, 1, 5) == 5;
    }
    assert t[1..5] == "Code";
    var l := LowerAscii("Code");
    assert l == "code" by {
      assert |l| == 4;
      assert l[0] == AsciiLower('C') == 'c';
    }
    ParseComplete("code", Code);
  }

  /** Text that agrees on its first `PromptLimit` characters gets the same treatment. */
  lemma OnlyExcerptMatters(t1: string, t2: string, settings: Settings, respond: Request -> Reply)
    requires Take(t1, PromptLimit) == Take(t2, PromptLimit)
    ensures CategorizeWithAi(t1, settings, respond) == CategorizeWithAi(t2, settings, respond)
  {
  }

  /** The adapter never answers `image`, whatever the provider says. */
  lemma NeverImage(text: string, settings: Settings, respond: Request -> Reply)
    ensures CategorizeWithAi(text, settings, respond).answer != Some(Image)
  {
  }
}
