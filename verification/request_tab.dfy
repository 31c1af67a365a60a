/**
  The request tab's prompt path: `buildPromptText` assembles the prompt from
  a fixed notice, a vulnerability checklist, the masked request and response
  and the user's own text; `analyzeRequest` refuses an empty prompt and masks
  the whole prompt once more before it is sent.

  A request or response is represented by its `toString()` text, `None`
  standing for Java's `null`. The masker's `originalValues` map is threaded
  through every `mask` call in the order the source makes them. Every
  operation takes the masking `Policy`: `AsWritten` is the source's
  behaviour, `InPlace` the corrected rewrite, and every property below
  holds for both.
 */
module RequestTab {
  import opened Options
  import opened Strings
  import opened Keys
  import opened DataMasker

  /** The fixed texts a prompt is assembled from. */
  datatype Texts = Texts(
    notice: string,
    headingStart: string,
    andResponse: string,
    headingEnd: string,
    checklist: string,
    requestLabel: string,
    responseLabel: string,
    closing: string,
    emptyPromptMessage: string)

  /** The texts as the source writes them. */
  const SourceTexts: Texts := Texts(
    "NOTE TO ANALYSTS: Sensitive data in this request (API keys, credentials, tokens, etc.) has been automatically masked for security.\n\n",
    "Analyze this HTTP request",
    " and response",
    " for security vulnerabilities including but not limited to:\n",
    "- SQL/NoSQL Injection\n"
    + "- Cross-Site Scripting (XSS)\n"
    + "- Cross-Site Request Forgery (CSRF)\n"
    + "- Authentication flaws\n"
    + "- Authorization bypass\n"
    + "- Security header misconfiguration\n"
    + "- Sensitive data exposure\n"
    + "- Server-Side Request Forgery (SSRF)\n"
    + "- Insecure Direct Object References (IDOR)\n\n",
    "REQUEST:\n",
    "\n\nRESPONSE:\n",
    "\n\n"
    + "Format your response with clear headers for each vulnerability, assign severity (Critical/High/Medium/Low), and provide specific exploitation steps and remediation advice.\n\n",
    "Empty custom prompt or HTTP request.")

  /** The security notice opens every prompt, so no prompt is empty. */
  lemma SourceNoticeNonEmpty()
    ensures SourceTexts.notice != []
  {
  }

  /** The instruction line and checklist; it names the response only when there is one. */
  function Heading(x: Texts, hasResponse: bool): string {
    x.headingStart + (if hasResponse then x.andResponse else "") + x.headingEnd + x.checklist
  }

  /** The response part of the analysis section. */
  function ResponsePart(x: Texts, hasResponse: bool, response: string): string {
    if hasResponse then x.responseLabel + response else ""
  }

  /** The analysis section around a request text and a response text; empty when not analysing. */
  function Section(x: Texts, analyze: bool, hasResponse: bool, request: string, response: string): string {
    if analyze then Heading(x, hasResponse) + x.requestLabel + request + ResponsePart(x, hasResponse, response) + x.closing
    else ""
  }

  /** The layout shared by the prompt and its unmasked reference. */
  function Layout(x: Texts, analyze: bool, hasResponse: bool, request: string, response: string, custom: string): string {
    x.notice + Section(x, analyze, hasResponse, request, response) + custom
  }

  /** `includeRequestResponse && request != null`. */
  predicate Analyzes(withRequest: bool, request: Option<string>) {
    withRequest && request.Some?
  }

  function TextOf(s: Option<string>): string {
    if s.Some? then s.value else ""
  }

  /**
    The reference prompt: what `buildPromptText` would return if `mask`
    were the identity. `None` is the source's `null`.
   */
  function RawPrompt(x: Texts, withRequest: bool, custom: string, request: Option<string>, response: Option<string>): Option<string> {
    if !Analyzes(withRequest, request) && custom == [] then None
    else Some(Layout(x, Analyzes(withRequest, request), response.Some?, TextOf(request), TextOf(response), custom))
  }

  datatype Prompt = Prompt(text: Option<string>, state: MaskerState)

  /** The offset at which the request text starts in a prompt. */
  function RequestAt(x: Texts, hasResponse: bool): nat {
    |x.notice| + |Heading(x, hasResponse)| + |x.requestLabel|
  }

  /** Masking the request and response pieces keeps the layout and only stars characters. */
  lemma LayoutStarOrSame(x: Texts, analyze: bool, hasResponse: bool, req: string, resp: string, req': string, resp': string,
                         custom: string)
    requires StarOrSame(req, req') && StarOrSame(resp, resp')
    ensures StarOrSame(Layout(x, analyze, hasResponse, req, resp, custom), Layout(x, analyze, hasResponse, req', resp', custom))
  {
    StarOrSameRefl(x.notice);
    StarOrSameRefl(custom);
    if analyze {
      var h := Heading(x, hasResponse) + x.requestLabel;
      StarOrSameRefl(h);
      StarOrSameConcat(h, h, req, req');
      StarOrSameRefl(x.responseLabel);
      StarOrSameConcat(x.responseLabel, x.responseLabel, resp, resp');
      StarOrSameRefl(ResponsePart(x, hasResponse, resp));
      StarOrSameConcat(h + req, h + req', ResponsePart(x, hasResponse, resp), ResponsePart(x, hasResponse, resp'));
      StarOrSameRefl(x.closing);
      StarOrSameConcat(h + req + ResponsePart(x, hasResponse, resp), h + req' + ResponsePart(x, hasResponse, resp'),
                       x.closing, x.closing);
      StarOrSameConcat(x.notice, x.notice, Section(x, analyze, hasResponse, req, resp), Section(x, analyze, hasResponse, req', resp'));
    } else {
      StarOrSameConcat(x.notice, x.notice, "", "");
    }
    StarOrSameConcat(x.notice + Section(x, analyze, hasResponse, req, resp), x.notice + Section(x, analyze, hasResponse, req', resp'),
                     custom, custom);
  }

  /** Slices of a five-part concatenation, stated for arbitrary parts. */
  lemma ConcatPositions(n: string, h: string, req: string, rp: string, cl: string, custom: string)
    ensures var p := n + (h + req + rp + cl) + custom;
      && |p| == |n| + |h| + |req| + |rp| + |cl| + |custom|
      && p[..|n|] == n
      && p[|p| - |custom|..] == custom
      && p[..|n| + |h|] == n + h
      && p[|n| + |h|..|n| + |h| + |req|] == req
      && p[|n| + |h| + |req|..|n| + |h| + |req| + |rp|] == rp
  {
    var p := n + (h + req + rp + cl) + custom;
    assert p == (n + h) + req + (rp + cl + custom);
    SliceOfConcat3(n + h, req, rp + cl + custom, 0, |rp|);
    assert (rp + cl + custom)[..|rp|] == rp;
  }

  /** Where the pieces sit in a laid-out prompt. */
  lemma LayoutPositions(x: Texts, analyze: bool, hasResponse: bool, req: string, resp: string, custom: string)
    ensures var p := Layout(x, analyze, hasResponse, req, resp, custom);
      && |p| >= |x.notice| + |custom|
      && p[..|x.notice|] == x.notice
      && p[|p| - |custom|..] == custom
      && (analyze ==> RequestAt(x, hasResponse) + |req| <= |p|
                      && p[..RequestAt(x, hasResponse)] == x.notice + (Heading(x, hasResponse) + x.requestLabel)
                      && p[RequestAt(x, hasResponse)..RequestAt(x, hasResponse) + |req|] == req)
      && (analyze && hasResponse ==>
            var at := RequestAt(x, true) + |req|;
            at + |x.responseLabel + resp| <= |p|
            && p[at..at + |x.responseLabel + resp|] == x.responseLabel + resp)
  {
    if analyze {
      ConcatPositions(x.notice, Heading(x, hasResponse) + x.requestLabel, req, ResponsePart(x, hasResponse, resp), x.closing, custom);
    } else {
      ConcatPositions(x.notice, "", "", "", "", custom);
      assert Section(x, analyze, hasResponse, req, resp) == "" + "" + "" + "";
    }
  }

  /** The request section of an analysing layout `p`. */
  lemma LayoutRequestSection(x: Texts, hasResponse: bool, req: string, resp: string, custom: string, p: string)
    requires p == Layout(x, true, hasResponse, req, resp, custom)
    ensures RequestAt(x, hasResponse) + |req| <= |p|
    ensures p[..RequestAt(x, hasResponse)] == x.notice + (Heading(x, hasResponse) + x.requestLabel)
    ensures p[RequestAt(x, hasResponse)..RequestAt(x, hasResponse) + |req|] == req
  {
    LayoutPositions(x, true, hasResponse, req, resp, custom);
  }

  /** The response section of an analysing layout `p` with a response. */
  lemma LayoutResponseSection(x: Texts, req: string, resp: string, custom: string, p: string)
    requires p == Layout(x, true, true, req, resp, custom)
    ensures RequestAt(x, true) + |req| + |x.responseLabel + resp| <= |p|
    ensures p[RequestAt(x, true) + |req|..RequestAt(x, true) + |req| + |x.responseLabel + resp|] == x.responseLabel + resp
  {
    LayoutPositions(x, true, true, req, resp, custom);
  }

  /** The map after masking a request and then, when there is one, a response. */
  function MaskBoth(policy: Policy, e: Engines, request: string, response: Option<string>, state: MaskerState): (st: MaskerState)
    requires ValidEngines(e)
    ensures st.originalValues ==
      if response.Some? && response.value != [] then Indexed(MaskedValues(policy, e, response.value))
      else if request != [] then Indexed(MaskedValues(policy, e, request))
      else state.originalValues
  {
    var mr := Mask(policy, e, Some(request), state);
    if response.Some? then Mask(policy, e, response, mr.state).state else mr.state
  }

  /** The response as `mask` returns it, or nothing. */
  function MaskedResponse(policy: Policy, e: Engines, response: Option<string>): string
    requires ValidEngines(e)
  {
    if response.Some? then MaskText(policy, e, response.value) else ""
  }

  /** The analysing branch of `buildPromptText`: request and response are masked in turn. */
  function AnalysedPrompt(x: Texts, policy: Policy, e: Engines, request: string, response: Option<string>, custom: string,
                          state: MaskerState): (p: Prompt)
    requires ValidEngines(e)
    ensures p.text == Some(Layout(x, true, response.Some?, MaskText(policy, e, request), MaskedResponse(policy, e, response), custom))
    ensures StarOrSame(Layout(x, true, response.Some?, request, TextOf(response), custom), p.text.value)
    ensures p.state == MaskBoth(policy, e, request, response, state)
  {
    var mr := Mask(policy, e, Some(request), state);
    MaskTextIgnoresState(policy, e, request, state);
    var resp :=
      if response.Some? then
        MaskTextIgnoresState(policy, e, response.value, mr.state);
        Mask(policy, e, response, mr.state).text.value
      else "";
    StarOrSameRefl("");
    LayoutStarOrSame(x, true, response.Some?, request, TextOf(response), mr.text.value, resp, custom);
    Prompt(Some(Layout(x, true, response.Some?, mr.text.value, resp, custom)), MaskBoth(policy, e, request, response, state))
  }

  /**
    `buildPromptText`: `null` when there is neither a request to analyse
    nor custom text; otherwise the notice, the analysis section with the
    masked request and response, and the custom text, which is not masked.
   */
  function BuildPromptText(x: Texts, policy: Policy, e: Engines, withRequest: bool, custom: string, request: Option<string>,
                           response: Option<string>, state: MaskerState): (p: Prompt)
    requires ValidEngines(e)
    ensures p.text.None? <==> !Analyzes(withRequest, request) && custom == []
    ensures p.text.None? <==> RawPrompt(x, withRequest, custom, request, response).None?
    ensures p.text.Some? ==> StarOrSame(RawPrompt(x, withRequest, custom, request, response).value, p.text.value)
    ensures !Analyzes(withRequest, request) ==> p.state == state
  {
    var analyze := Analyzes(withRequest, request);
    if !analyze && custom == [] then Prompt(None, state)
    else if !analyze then
      var text := Layout(x, false, response.Some?, "", TextOf(response), custom);
      StarOrSameRefl(text);
      Prompt(Some(text), state)
    else
      AnalysedPrompt(x, policy, e, request.value, response, custom, state)
  }

  /** The prompt of the analysing branch, as a layout of the masked texts. */
  lemma AnalysedLayout(x: Texts, policy: Policy, e: Engines, withRequest: bool, custom: string, request: Option<string>,
                       response: Option<string>, state: MaskerState)
    requires ValidEngines(e) && Analyzes(withRequest, request)
    ensures BuildPromptText(x, policy, e, withRequest, custom, request, response, state).text
         == Some(Layout(x, true, response.Some?, MaskText(policy, e, request.value), MaskedResponse(policy, e, response), custom))
  {
    assert BuildPromptText(x, policy, e, withRequest, custom, request, response, state)
        == AnalysedPrompt(x, policy, e, request.value, response, custom, state);
  }

  /** The notice opens every prompt and the custom text, unmasked, closes it. */
  lemma PromptFrame(x: Texts, policy: Policy, e: Engines, withRequest: bool, custom: string, request: Option<string>,
                    response: Option<string>, state: MaskerState)
    requires ValidEngines(e)
    ensures var p := BuildPromptText(x, policy, e, withRequest, custom, request, response, state);
      p.text.Some? ==>
        && p.text.value[..|x.notice|] == x.notice
        && p.text.value[|p.text.value| - |custom|..] == custom
  {
    var p := BuildPromptText(x, policy, e, withRequest, custom, request, response, state);
    if Analyzes(withRequest, request) {
      var req, resp := MaskText(policy, e, request.value), MaskedResponse(policy, e, response);
      AnalysedLayout(x, policy, e, withRequest, custom, request, response, state);
      LayoutPositions(x, true, response.Some?, req, resp, custom);
    } else if p.text.Some? {
      assert p.text == Some(Layout(x, false, response.Some?, "", TextOf(response), custom));
      LayoutPositions(x, false, response.Some?, "", TextOf(response), custom);
    }
  }

  /** Without a request to analyse, the prompt is the notice and the custom text; a response alone is dropped. */
  lemma PromptWithoutRequest(x: Texts, policy: Policy, e: Engines, withRequest: bool, custom: string,
                             request: Option<string>, response: Option<string>, state: MaskerState)
    requires ValidEngines(e)
    ensures !Analyzes(withRequest, request) && custom != [] ==>
      BuildPromptText(x, policy, e, withRequest, custom, request, response, state) == Prompt(Some(x.notice + custom), state)
  {
    if !Analyzes(withRequest, request) && custom != [] {
      assert Layout(x, false, response.Some?, "", TextOf(response), custom) == x.notice + "" + custom;
      assert x.notice + "" + custom == x.notice + custom;
    }
  }

  /**
    When the request is analysed, the masked request follows the heading,
    which names the response only when there is one.
   */
  lemma PromptRequestSection(x: Texts, policy: Policy, e: Engines, withRequest: bool, custom: string, request: Option<string>,
                             response: Option<string>, state: MaskerState)
    requires ValidEngines(e)
    ensures Analyzes(withRequest, request) ==>
      var p := BuildPromptText(x, policy, e, withRequest, custom, request, response, state);
      var at := RequestAt(x, response.Some?);
      var req := MaskText(policy, e, request.value);
      && p.text.Some?
      && at + |req| <= |p.text.value|
      && p.text.value[..at] == x.notice + (Heading(x, response.Some?) + x.requestLabel)
      && p.text.value[at..at + |req|] == req
  {
    if Analyzes(withRequest, request) {
      var req, resp := MaskText(policy, e, request.value), MaskedResponse(policy, e, response);
      AnalysedLayout(x, policy, e, withRequest, custom, request, response, state);
      LayoutRequestSection(x, response.Some?, req, resp, custom,
                           BuildPromptText(x, policy, e, withRequest, custom, request, response, state).text.value);
    }
  }

  /** When there is a response as well, its label and masked text follow the request. */
  lemma PromptResponseSection(x: Texts, policy: Policy, e: Engines, withRequest: bool, custom: string, request: Option<string>,
                              response: Option<string>, state: MaskerState)
    requires ValidEngines(e)
    ensures Analyzes(withRequest, request) && response.Some? ==>
      var p := BuildPromptText(x, policy, e, withRequest, custom, request, response, state);
      var at := RequestAt(x, true) + |request.value|;
      var resp := MaskText(policy, e, response.value);
      && p.text.Some?
      && at + |x.responseLabel + resp| <= |p.text.value|
      && p.text.value[at..at + |x.responseLabel + resp|] == x.responseLabel + resp
  {
    if Analyzes(withRequest, request) && response.Some? {
      var req, resp := MaskText(policy, e, request.value), MaskedResponse(policy, e, response);
      AnalysedLayout(x, policy, e, withRequest, custom, request, response, state);
      LayoutResponseSection(x, req, resp, custom,
                            BuildPromptText(x, policy, e, withRequest, custom, request, response, state).text.value);
    }
  }

  /**
    Each `mask` call replaces the map, so after `buildPromptText` it holds
    the values of the last non-empty text masked: the response's, else the
    request's; without a request it is untouched.
   */
  lemma PromptState(x: Texts, policy: Policy, e: Engines, withRequest: bool, custom: string, request: Option<string>,
                    response: Option<string>, state: MaskerState)
    requires ValidEngines(e)
    ensures Analyzes(withRequest, request) ==>
      BuildPromptText(x, policy, e, withRequest, custom, request, response, state).state.originalValues ==
        if response.Some? && response.value != [] then Indexed(MaskedValues(policy, e, response.value))
        else if request.value != [] then Indexed(MaskedValues(policy, e, request.value))
        else state.originalValues
  {
  }

  /** The prompt text does not depend on what earlier `mask` calls left in the map. */
  lemma PromptIgnoresState(x: Texts, policy: Policy, e: Engines, withRequest: bool, custom: string, request: Option<string>,
                           response: Option<string>, s1: MaskerState, s2: MaskerState)
    requires ValidEngines(e)
    ensures BuildPromptText(x, policy, e, withRequest, custom, request, response, s1).text
         == BuildPromptText(x, policy, e, withRequest, custom, request, response, s2).text
  {
    if Analyzes(withRequest, request) {
      MaskTextIgnoresState(policy, e, request.value, s1);
      MaskTextIgnoresState(policy, e, request.value, s2);
      if response.Some? {
        MaskTextIgnoresState(policy, e, response.value, Mask(policy, e, request, s1).state);
        MaskTextIgnoresState(policy, e, response.value, Mask(policy, e, request, s2).state);
      }
    }
  }

  /** What `analyzeRequest` ends with: a message in the response pane, or the prompt as sent. */
  datatype Outcome =
    | NotSent(message: string, state: MaskerState)
    | Sent(prompt: string, sent: string, state: MaskerState)

  /**
    `analyzeRequest`: the prompt is built with the request always included;
    without request and custom text the pane shows a message and nothing is
    masked; otherwise the whole prompt is masked again and that text is
    handed to the AI client. The notice is never empty (`SourceNoticeNonEmpty`),
    so the final `mask` always replaces the map.
   */
  function AnalyzeRequest(x: Texts, policy: Policy, e: Engines, request: Option<string>, response: Option<string>, custom: string,
                          state: MaskerState): (r: Outcome)
    requires ValidEngines(e) && x.notice != []
    ensures r.NotSent? <==> request.None? && custom == []
    ensures r.NotSent? ==> r.message == x.emptyPromptMessage && r.state == state
    ensures r.Sent? ==>
      && RawPrompt(x, true, custom, request, response).Some?
      && StarOrSame(RawPrompt(x, true, custom, request, response).value, r.prompt)
      && StarOrSame(r.prompt, r.sent)
      && StarOrSame(RawPrompt(x, true, custom, request, response).value, r.sent)
    ensures r.Sent? ==> r.sent == MaskText(policy, e, r.prompt)
    ensures r.Sent? ==> r.state.originalValues == Indexed(MaskedValues(policy, e, r.prompt))
  {
    var p := BuildPromptText(x, policy, e, true, custom, request, response, state);
    if p.text.None? then NotSent(x.emptyPromptMessage, p.state)
    else
      var m := Mask(policy, e, p.text, p.state);
      MaskTextIgnoresState(policy, e, p.text.value, p.state);
      StarOrSameTrans(RawPrompt(x, true, custom, request, response).value, p.text.value, m.text.value);
      Sent(p.text.value, m.text.value, m.state)
  }

  /** A prompt that is sent starts with the notice and is masked as a whole. */
  lemma SentPromptFrame(x: Texts, policy: Policy, e: Engines, request: Option<string>, response: Option<string>,
                        custom: string, state: MaskerState)
    requires ValidEngines(e) && x.notice != []
    ensures var r := AnalyzeRequest(x, policy, e, request, response, custom, state);
      r.Sent? ==> && |x.notice| <= |r.prompt|
                  && r.prompt[..|x.notice|] == x.notice
                  && r.sent == MaskText(policy, e, r.prompt)
  {
    PromptFrame(x, policy, e, true, custom, request, response, state);
  }

  /**
    `analyzeRequest` with the source's own texts: its precondition holds, the
    empty case shows the source's message, and a sent prompt starts with the
    source's notice.
   */
  lemma SourceAnalyzeRequest(policy: Policy, e: Engines, request: Option<string>, response: Option<string>,
                             custom: string, state: MaskerState)
    requires ValidEngines(e)
    ensures SourceTexts.notice != []
    ensures var r := AnalyzeRequest(SourceTexts, policy, e, request, response, custom, state);
      && (r.NotSent? <==> request.None? && custom == [])
      && (r.NotSent? ==> r.message == SourceTexts.emptyPromptMessage && r.state == state)
      && (r.Sent? ==> && |SourceTexts.notice| <= |r.prompt|
                      && r.prompt[..|SourceTexts.notice|] == SourceTexts.notice
                      && r.sent == MaskText(policy, e, r.prompt))
  {
    SourceNoticeNonEmpty();
    SentPromptFrame(SourceTexts, policy, e, request, response, custom, state);
  }

  /** What is sent, and what the map holds afterwards, do not depend on the map before. */
  lemma SentIgnoresState(x: Texts, policy: Policy, e: Engines, request: Option<string>, response: Option<string>, custom: string,
                         s1: MaskerState, s2: MaskerState)
    requires ValidEngines(e) && x.notice != []
    ensures AnalyzeRequest(x, policy, e, request, response, custom, s1).Sent? ==>
      AnalyzeRequest(x, policy, e, request, response, custom, s1) == AnalyzeRequest(x, policy, e, request, response, custom, s2)
  {
    PromptIgnoresState(x, policy, e, true, custom, request, response, s1, s2);
  }
}
