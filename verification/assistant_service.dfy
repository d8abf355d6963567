/** The global assistant (services/assistantService.ts): an ordered table
    of canned answers, each guarded by a list of regular expressions, tried
    before the generative backend. The regular expressions are kept by
    their source text and checked by a matcher passed in as a parameter;
    the backend is a parameter too. */
module AssistantService {
  import opened Wrappers
  import opened Text

  const CASSIAN_IDENTITY: string :=
    "I am **CASSIAN** — **Code Analysis System for Software Intelligence and Navigation**. " +
    "I help you explore, understand, and interact with software systems intelligently."

  const EMPTY_MESSAGE_ANSWER: string :=
    "Looks like an empty message! Type a question and I'll do my best to help."

  const BACKEND_FALLBACK: string :=
    "I'm having trouble reaching the AI service right now. Try again in a moment, or ask me something about how to use CASSIAN!"

  /** The `modelUsed` of an answer taken from the table. */
  const RULE_BASED: string := "rule-based"

  /** A table entry: patterns (by their source text) and the answer given
      when any of them matches. */
  datatype Rule = Rule(patterns: seq<string>, answer: string)

  const NARNIA_ANSWER: string :=
    "I walk the path of knowledge and courage. Every system has its hidden kingdom — explore, and you will discover."

  /** The rules, named after what they answer. */
  const EASTER_EGG: Rule :=
    Rule(["/^for narnia[\\s!?.]*$/i", "/^narnia[\\s!?.]*$/i", "/^caspian[\\s!?.]*$/i", "/^aslan[\\s!?.]*$/i"],
         NARNIA_ANSWER)

  const GREETINGS: Rule :=
    Rule(["/^(hi|hello|hey|howdy|yo|hiya|sup|what'?s up)[\\s!?.]*$/i", "/^good (morning|afternoon|evening)/i",
          "/^(greetings|salutations)/i"],
         "Hey! I'm **CASSIAN** — I can help you navigate, explain features, troubleshoot issues, or just chat. What do you need?")

  const IDENTITY: Rule :=
    Rule(["/what (is|does) cassian/i", "/what('s| is) cassian/i", "/what does cassian (stand for|mean)/i",
          "/cassian stand for/i", "/what (is|does) (this|the) app/i", "/tell me about (this app|cassian)/i",
          "/explain (this app|cassian)/i"],
         CASSIAN_IDENTITY)

  const WHO_ARE_YOU: Rule :=
    Rule(["/who are you/i", "/what are you/i", "/are you (an? )?(ai|bot|assistant|robot)/i", "/tell me about yourself/i"],
         CASSIAN_IDENTITY)

  const HOW_TO_UPLOAD: Rule :=
    Rule(["/how (do i|to|can i) upload/i", "/upload.*(repo|repository|code|project)/i",
          "/how.*(add|submit|import).*(repo|code|project)/i", "/where.*(upload|import)/i"],
         "Here's how to upload a repository:\n\n" +
         "1. Go to the **Upload** page from the sidebar\n" +
         "2. Choose your source:\n" +
         "   - **GitHub URL** — paste a public repo link\n" +
         "   - **ZIP file** — drag & drop or select a .zip archive\n" +
         "3. Click **Upload** and I'll process it\n" +
         "4. Once done, I'll show you a summary and you can start chatting about the code")

  const HOW_CHAT_WORKS: Rule :=
    Rule(["/how (does|do) (the )?(repo )?chat work/i", "/how (to|do i) (use )?(the )?(repo )?chat/i",
          "/how (to|can i) ask.*(question|about|code)/i", "/what can i ask/i", "/how (does )?code chat/i"],
         "Here's how code chat works:\n\n" +
         "1. Go to the **Chat** page from the sidebar\n" +
         "2. Select a previously uploaded repo\n" +
         "3. Type your question in plain English\n" +
         "4. I'll search the code for relevant sections and give you a detailed answer\n\n" +
         "Try asking things like:\n" +
         "- *\"What does the main entry point do?\"*\n" +
         "- *\"How is authentication handled?\"*\n" +
         "- *\"Explain the function processData\"*")

  const HOW_ASSISTANT_WORKS: Rule :=
    Rule(["/how (does|do) (the )?assistant work/i", "/how (does|do) you work/i", "/what('s| is) (the )?assistant/i",
          "/how (do i|to) use (the )?assistant/i"],
         "I'm **CASSIAN** — your global assistant, available on every page.\n\n" +
         "- **Hover** the right edge of your screen to open me\n" +
         "- I answer questions instantly using my built-in knowledge\n" +
         "- For complex or open-ended questions, I generate deeper insights\n" +
         "- I work independently of repository uploads — no repo needed!\n\n" +
         "I know about navigation, features, troubleshooting, and more.")

  const WHO_BUILT: Rule :=
    Rule(["/who (built|made|created|developed|wrote) (this|cassian)/i", "/who('s| is) the (creator|developer|author|maker)/i",
          "/who (is )?behind (this|cassian)/i"],
         "I was designed and built as an intelligent code analysis platform. " +
         "My architecture is built on modern web technologies to deliver a fast, responsive experience.")

  const HELP: Rule :=
    Rule(["/^help[\\s!?.]*$/i", "/what can you (do|help with)/i", "/how (can you|do you) help/i",
          "/what (are your|do you have) (features|capabilities)/i"],
         "I can help with:\n\n" +
         "- **Navigation** — where to find pages and features\n" +
         "- **Feature explanation** — how upload, chat, and summaries work\n" +
         "- **Troubleshooting** — common issues and fixes\n" +
         "- **About me** — what I am, how I work, what CASSIAN stands for\n" +
         "- **General questions** — anything else, I'll do my best to answer\n\n" +
         "Just ask away!")

  const FEATURES: Rule :=
    Rule(["/what (features|functionality)/i", "/list.*(features|capabilities)/i", "/what (does|can) (this app|cassian) do/i"],
         "Here's what I can do:\n\n" +
         "- **Repository Upload** — ingest via GitHub URL or ZIP file\n" +
         "- **Automatic Parsing** — I extract and chunk all source files\n" +
         "- **AI Summaries** — I generate per-file summaries + architecture overviews\n" +
         "- **Code Chat** — ask me questions about any uploaded repo\n" +
         "- **Global Assistant** — I'm available on every page (that's me!)\n" +
         "- **Smart Fallback** — I automatically adapt to stay reliable\n" +
         "- **Dark/Light Theme** — toggleable with persistent preference\n" +
         "- **Secure Auth** — safe sign-in to protect your data")

  const THANKS: Rule :=
    Rule(["/^(thanks|thank you|thx|ty|cheers)[\\s!?.]*$/i", "/^(much appreciated|appreciate it)/i"],
         "You're welcome! Let me know if you need anything else.")

  const NAV_HOME: Rule :=
    Rule(["/where is (the )?(home|dashboard|main)/i", "/(go|navigate|take me) to (the )?(home|dashboard)/i",
          "/how (do i|to) (get|go) (to )?(home|dashboard)/i"],
         "The **Home** page is your dashboard with stats and quick actions. Click **\"Home\"** in the sidebar, or navigate to `/home`.")

  const NAV_UPLOAD: Rule :=
    Rule(["/where is (the )?upload/i", "/(go|navigate|take me) to (the )?upload/i", "/how (do i|to) (get|go) to upload/i"],
         "The **Upload** page is in the sidebar. Click **\"Upload\"** on the left navigation, or go to `/upload`.")

  const NAV_REPOSITORIES: Rule :=
    Rule(["/where (is|are) (the )?(repos|repositories)/i", "/(go|navigate|take me) to (the )?(repos|repositories)/i",
          "/how (do i|to) (see|view|find) (my )?(repos|repositories)/i"],
         "Your uploaded repositories are on the **Repositories** page. Click **\"Repositories\"** in the sidebar, or navigate to `/repositories`.")

  const NAV_CHAT: Rule :=
    Rule(["/where is (the )?chat/i", "/(go|navigate|take me) to (the )?chat/i", "/how (do i|to) (get|go) to chat/i"],
         "The **Chat** page is in the sidebar. Click **\"Chat\"** on the left navigation, or go to `/chat`.")

  const NAV_GENERAL: Rule :=
    Rule(["/how (do i|to) navigate/i", "/where (do i|can i) find/i", "/show me (the )?pages/i", "/what pages/i"],
         "I have these pages:\n\n" +
         "- **Home** (`/home`) — Dashboard with stats and quick actions\n" +
         "- **Upload** (`/upload`) — Add repos via GitHub URL or ZIP\n" +
         "- **Repositories** (`/repositories`) — Browse uploaded repos\n" +
         "- **Chat** (`/chat`) — Ask me questions about code\n\n" +
         "Use the **sidebar** on the left to navigate between them.")

  const UPLOAD_FAILS: Rule :=
    Rule(["/upload.*(fail|error|not working|broken|stuck)/i", "/(can'?t|cannot|unable to) upload/i"],
         "If your upload is failing:\n\n" +
         "1. **GitHub URLs** — make sure the repo is public and the URL is correct\n" +
         "2. **ZIP files** — ensure the file is under 50MB and is a valid .zip\n" +
         "3. **Network** — check your internet connection\n" +
         "4. **Retry** — I may be temporarily busy; wait a moment and try again")

  const CHAT_NOT_RESPONDING: Rule :=
    Rule(["/chat.*(not working|broken|error|fail|empty|no response)/i", "/(can'?t|cannot) (get|receive) (an? )?answer/i",
          "/ai.*(not responding|down|broken|error)/i"],
         "If chat isn't responding:\n\n" +
         "1. Make sure you've uploaded and selected a repository first\n" +
         "2. I may be handling many requests — wait 30 seconds and retry\n" +
         "3. I automatically adapt when under load, so transient issues usually resolve themselves\n" +
         "4. If the problem persists, try re-uploading the repository")

  const TROUBLESHOOTING: Rule :=
    Rule(["/^(something'?s? )?(not working|broken|error|bug)/i", "/i('m| am) (having|getting) (an? )?(error|issue|problem)/i",
          "/troubleshoot/i"],
         "General troubleshooting:\n\n" +
         "1. **Refresh the page** — clears stale state\n" +
         "2. **Check your connection** — I need internet to process requests\n" +
         "3. **Re-upload** — repository data expires after a while; upload again\n" +
         "4. **Try a different browser** — if styling looks broken\n\n" +
         "Tell me what specific issue you're seeing and I can help further!")

  const THEME: Rule :=
    Rule(["/how (do i|to) (change|switch|toggle) (the )?(theme|mode|dark|light)/i", "/dark mode/i", "/light mode/i"],
         "To switch between dark and light themes, click the **sun/moon icon** in the top-right corner of the header bar. " +
         "Your preference is saved automatically and persists across sessions.")

  const BYE: Rule :=
    Rule(["/^(bye|goodbye|see you|later|cya|gtg)[\\s!?.]*$/i"],
         "See you later! I'll be right here if you need me.")

  /** `RULES`, in table order. */
  const RULES: seq<Rule> := [
    EASTER_EGG, GREETINGS, IDENTITY, WHO_ARE_YOU, HOW_TO_UPLOAD, HOW_CHAT_WORKS,
    HOW_ASSISTANT_WORKS, WHO_BUILT, HELP, FEATURES, THANKS, NAV_HOME,
    NAV_UPLOAD, NAV_REPOSITORIES, NAV_CHAT, NAV_GENERAL, UPLOAD_FAILS, CHAT_NOT_RESPONDING,
    TROUBLESHOOTING, THEME, BYE
  ]

  /** The position of the identity rule in `RULES`. */
  const IDENTITY_RULE: nat := 2

  /** Whether any pattern of `rule` matches `text`, under the matcher `test`
      (`pattern.test(text)`, given the pattern's source text). */
  predicate RuleMatches(rule: Rule, text: string, test: (string, string) -> bool) {
    exists k :: 0 <= k < |rule.patterns| && test(rule.patterns[k], text)
  }

  /** The inner loop: the patterns tried in order until one matches. */
  function AnyPattern(patterns: seq<string>, text: string, test: (string, string) -> bool): (r: bool)
    ensures r <==> exists k :: 0 <= k < |patterns| && test(patterns[k], text)
  {
    if patterns == [] then false
    else if test(patterns[0], text) then true
    else
      var r := AnyPattern(patterns[1..], text, test);
      assert forall k :: 0 < k < |patterns| ==> patterns[k] == patterns[1..][k - 1];
      r
  }

  /** The outer loop: the answer of the first rule, in table order, with a
      matching pattern, or nothing. */
  function FirstRule(rules: seq<Rule>, text: string, test: (string, string) -> bool): (r: Option<string>)
    ensures r.None? <==> forall k :: 0 <= k < |rules| ==> !RuleMatches(rules[k], text, test)
    ensures r.Some? ==> exists k :: && 0 <= k < |rules| && RuleMatches(rules[k], text, test)
                                   && (forall j :: 0 <= j < k ==> !RuleMatches(rules[j], text, test))
                                   && r.value == rules[k].answer
  {
    if rules == [] then None
    else if AnyPattern(rules[0].patterns, text, test) then Some(rules[0].answer)
    else
      var r := FirstRule(rules[1..], text, test);
      assert forall k :: 0 < k < |rules| ==> rules[k] == rules[1..][k - 1];
      assert r.Some? ==> exists k :: && 0 <= k < |rules| && RuleMatches(rules[k], text, test)
                                     && (forall j :: 0 <= j < k ==> !RuleMatches(rules[j], text, test))
                                     && r.value == rules[k].answer by {
        if r.Some? {
          var k :| && 0 <= k < |rules[1..]| && RuleMatches(rules[1..][k], text, test)
                   && (forall j :: 0 <= j < k ==> !RuleMatches(rules[1..][j], text, test))
                   && r.value == rules[1..][k].answer;
          forall j | 0 < j < k + 1 ensures !RuleMatches(rules[j], text, test) {
            assert rules[j] == rules[1..][j - 1];
          }
          assert RuleMatches(rules[k + 1], text, test);
        }
      }
      r
  }

  /** The first matching rule decides, whatever later rules would say. */
  lemma {:induction false} FirstRuleAt(rules: seq<Rule>, text: string, test: (string, string) -> bool, k: nat)
    requires k < |rules| && RuleMatches(rules[k], text, test)
    requires forall j :: 0 <= j < k ==> !RuleMatches(rules[j], text, test)
    ensures FirstRule(rules, text, test) == Some(rules[k].answer)
    decreases k
  {
    if k > 0 {
      assert !RuleMatches(rules[0], text, test);
      assert rules[k] == rules[1..][k - 1];
      forall j | 0 <= j < k - 1 ensures !RuleMatches(rules[1..][j], text, test) {
        assert rules[1..][j] == rules[j + 1];
      }
      FirstRuleAt(rules[1..], text, test, k - 1);
    }
  }

  /** `matchRule`: the empty-message answer for a blank question, else the
      first matching rule's answer on the trimmed question. */
  function MatchRule(question: string, test: (string, string) -> bool): (r: Option<string>)
    ensures AllSpace(question) ==> r == Some(EMPTY_MESSAGE_ANSWER)
    ensures !AllSpace(question) ==>
              (r.None? <==> forall k :: 0 <= k < |RULES| ==> !RuleMatches(RULES[k], Trim(question), test))
    ensures r.Some? ==> r.value != []
  {
    TrimEmptyIffAllSpace(question);
    RuleAnswersNonEmpty();
    var trimmed := Trim(question);
    if trimmed == [] then Some(EMPTY_MESSAGE_ANSWER)
    else FirstRule(RULES, trimmed, test)
  }

  /** Every answer in the table is non-empty, so a table hit is truthy. */
  lemma RuleAnswersNonEmpty()
    ensures forall k :: 0 <= k < |RULES| ==> RULES[k].answer != []
  {
  }

  /** The payload of the assistant endpoint. */
  datatype AssistantResponse = AssistantResponse(question: string, answer: string, modelUsed: string)

  /** What the backend call returned: the text (already falling back on
      failure) and the name of the model that produced it. */
  datatype Generated = Generated(text: string, model: string)

  /** One call to the backend: the question its prompt is built from, and
      the fallback text it is given. */
  datatype BackendCall = BackendCall(question: string, fallback: string)

  /** `askAssistant`: a table answer when there is one, and then no backend
      call; otherwise exactly one backend call, whose text and model are
      returned. The `question` field is always the input as given. */
  function AskAssistant(question: string, test: (string, string) -> bool,
                        backend: (string, string) -> Generated): (r: (AssistantResponse, seq<BackendCall>))
    ensures r.0.question == question
    ensures r.1 == [] <==> MatchRule(question, test).Some?
    ensures r.1 == [] ==> r.0.modelUsed == RULE_BASED && r.0.answer == MatchRule(question, test).value
    ensures r.1 != [] ==>
              && r.1 == [BackendCall(question, BACKEND_FALLBACK)]
              && r.0 == AssistantResponse(question, backend(question, BACKEND_FALLBACK).text,
                                          backend(question, BACKEND_FALLBACK).model)
  {
    var ruleAnswer := MatchRule(question, test);
    if ruleAnswer.Some? && ruleAnswer.value != [] then
      (AssistantResponse(question, ruleAnswer.value, RULE_BASED), [])
    else
      var g := backend(question, BACKEND_FALLBACK);
      (AssistantResponse(question, g.text, g.model), [BackendCall(question, BACKEND_FALLBACK)])
  }

  /** `modelUsed` is "rule-based" exactly on a table hit, provided the
      backend never reports that name for its own model. */
  lemma RuleBasedIffTableHit(question: string, test: (string, string) -> bool,
                             backend: (string, string) -> Generated)
    requires backend(question, BACKEND_FALLBACK).model != RULE_BASED
    ensures AskAssistant(question, test, backend).0.modelUsed == RULE_BASED
            <==> MatchRule(question, test).Some?
  {
  }

  /** A blank question gets the empty-message answer without a backend call. */
  lemma BlankQuestion(question: string, test: (string, string) -> bool,
                      backend: (string, string) -> Generated)
    requires AllSpace(question)
    ensures AskAssistant(question, test, backend) ==
            (AssistantResponse(question, EMPTY_MESSAGE_ANSWER, RULE_BASED), [])
  {
  }

  /** With no rule matching, the backend's answer is returned. */
  lemma NoRuleMeansBackend(question: string, test: (string, string) -> bool,
                           backend: (string, string) -> Generated)
    requires !AllSpace(question)
    requires forall k :: 0 <= k < |RULES| ==> !RuleMatches(RULES[k], Trim(question), test)
    ensures AskAssistant(question, test, backend).0.answer == backend(question, BACKEND_FALLBACK).text
  {
  }

  /** The first three entries of the table, in order. */
  lemma TableHead()
    ensures |RULES| > IDENTITY_RULE
    ensures RULES[0] == EASTER_EGG && RULES[1] == GREETINGS && RULES[IDENTITY_RULE] == IDENTITY
  {
  }

  /** The easter-egg rule fires on "caspian" once its anchored pattern
      does. */
  lemma CaspianFiresEasterEgg(test: (string, string) -> bool)
    requires test("/^caspian[\\s!?.]*$/i", "caspian")
    ensures RuleMatches(EASTER_EGG, "caspian", test)
  {
    assert EASTER_EGG.patterns[2] == "/^caspian[\\s!?.]*$/i";
  }

  /** The identity rule fires on "what does cassian do" once its first
      pattern does. */
  lemma IdentityFires(test: (string, string) -> bool)
    requires test("/what (is|does) cassian/i", "what does cassian do")
    ensures RuleMatches(IDENTITY, "what does cassian do", test)
  {
    assert IDENTITY.patterns[0] == "/what (is|does) cassian/i";
  }

  /** A question with no surrounding blanks that the rule at position k
      answers first gets that rule's answer, without a backend call. */
  lemma {:induction false} AnsweredByRule(question: string, test: (string, string) -> bool,
                                         backend: (string, string) -> Generated, k: nat)
    requires question != [] && !IsSpace(question[0]) && !IsSpace(question[|question| - 1])
    requires k < |RULES| && RuleMatches(RULES[k], question, test)
    requires forall j :: 0 <= j < k ==> !RuleMatches(RULES[j], question, test)
    ensures AskAssistant(question, test, backend) ==
            (AssistantResponse(question, RULES[k].answer, RULE_BASED), [])
  {
    TrimUnpadded(question);
    TrimEmptyIffAllSpace(question);
    FirstRuleAt(RULES, question, test, k);
    RuleAnswersNonEmpty();
  }

  /** "caspian" is answered by the first (easter-egg) rule, given that its
      anchored pattern matches it. */
  lemma CaspianIsEasterEgg(test: (string, string) -> bool, backend: (string, string) -> Generated)
    requires test("/^caspian[\\s!?.]*$/i", "caspian")
    ensures AskAssistant("caspian", test, backend) ==
            (AssistantResponse("caspian", NARNIA_ANSWER, RULE_BASED), [])
  {
    TableHead();
    CaspianFiresEasterEgg(test);
    AnsweredByRule("caspian", test, backend, 0);
  }

  /** "what does cassian do" matches both the identity rule and the
      features rule; the identity rule comes first in the table and wins,
      given that neither earlier rule (easter egg, greetings) matches it. */
  lemma IdentityBeforeFeatures(test: (string, string) -> bool, backend: (string, string) -> Generated)
    requires test("/what (is|does) cassian/i", "what does cassian do")
    requires !RuleMatches(EASTER_EGG, "what does cassian do", test)
    requires !RuleMatches(GREETINGS, "what does cassian do", test)
    ensures AskAssistant("what does cassian do", test, backend).0.answer == CASSIAN_IDENTITY
  {
    TableHead();
    IdentityFires(test);
    AnsweredByRule("what does cassian do", test, backend, IDENTITY_RULE);
  }
}
