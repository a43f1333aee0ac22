/**
 * The event relay: which webContents signals of a tab's view become `tabEvent`
 * messages to the main window, with what payload, and what the view is asked to do
 * in return (load the error page, deny a window.open).
 */
module Relay {
  import opened Wrappers
  import opened Text
  import opened Registry

  /** Chromium's ERR_ABORTED: a navigation superseded by a newer one. */
  const AbortedErrorCode: int := -3

  /** The signals a tab's webContents emits that the coordinator listens to. */
  datatype Signal =
    | PageTitleUpdated(title: string, explicitSet: bool)
    | PageFaviconUpdated(favicons: seq<string>)
    | DidStartLoading
    | DidStopLoading
    | DidNavigate(url: string, httpResponseCode: int, httpStatusText: string)
    | DidNavigateInPage(url: string, isMainFrame: bool, frameProcessId: int, frameRoutingId: int)
    | WindowOpen(url: string, disposition: string)
    | DidFailLoad(errorCode: int, errorDescription: string, validatedURL: string,
                  isMainFrame: bool, frameProcessId: int, frameRoutingId: int)

  /** What the view's navigation history answers when asked canGoBack() / canGoForward(). */
  datatype History = History(canGoBack: bool, canGoForward: bool)

  /** Messages sent to the main window's webContents (`tabEvent` and `hotkeyFromMain`). */
  datatype Message =
    | Title(id: TabId, title: string, explicitSet: bool)
    | Favicon(id: TabId, favicons: seq<string>)
    | Loading(id: TabId, loading: bool)
    | Navigate(id: TabId, url: string, httpResponseCode: int, httpStatusText: string,
               canGoBack: bool, canGoForward: bool)
    | NavigateInPage(id: TabId, url: string, isMainFrame: bool, frameProcessId: int,
                     frameRoutingId: int, canGoBack: bool, canGoForward: bool)
    | NewTab(fromId: TabId, url: string, disposition: string)
    | FailLoad(id: TabId, errorCode: int, errorDescription: string, validatedURL: string,
               isMainFrame: bool, frameProcessId: int, frameRoutingId: int)
    | HotkeyFromMain(id: TabId, hotkey: string)

  /** The tab a message is about. */
  function Tag(m: Message): TabId {
    if m.NewTab? then m.fromId else m.id
  }

  /** The answer of the window-open handler to the runtime. */
  datatype WindowOpenAction = Deny | Allow

  /** The coordinator's reaction to one signal. */
  datatype Reaction = Reaction(relayed: seq<Message>, load: Option<string>, action: Option<WindowOpenAction>)

  /** `${errorCode}${errorDescription && ' ' + errorDescription}`: the code alone when the description is empty. */
  function FailureDescription(errorCode: int, errorDescription: string): (d: string)
    ensures StartsWith(d, IntToString(errorCode))
    ensures |d| == |IntToString(errorCode)| <==> errorDescription == ""
  {
    var d := IntToString(errorCode) + (if errorDescription == "" then "" else " " + errorDescription);
    StartsWithConcat(IntToString(errorCode), d[|IntToString(errorCode)|..]);
    assert d == IntToString(errorCode) + d[|IntToString(errorCode)|..];
    d
  }

  /**
   * The value of the first `name=value` pair of a query string, the way
   * URLSearchParams.get finds it (before percent-decoding).
   */
  function QueryParam(query: string, name: string): Option<string> {
    if query != [] && query[0] == '?' then FirstValue(Split(query[1..], '&'), name) else None
  }

  function FirstValue(pairs: seq<string>, name: string): (r: Option<string>)
    ensures r.Some? ==> exists i :: 0 <= i < |pairs| && pairs[i] == name + "=" + r.value
  {
    if pairs == [] then None
    else if StartsWith(pairs[0], name + "=") then
      assert pairs[0] == name + "=" + pairs[0][|name| + 1..];
      Some(pairs[0][|name| + 1..])
    else
      var r := FirstValue(pairs[1..], name);
      if r.Some? then
        var i :| 0 <= i < |pairs[1..]| && pairs[1..][i] == name + "=" + r.value;
        assert pairs[i + 1] == name + "=" + r.value;
        r
      else r
  }

  lemma FirstValueHead(name: string, value: string, rest: seq<string>)
    ensures FirstValue([name + "=" + value] + rest, name) == Some(value)
  {
    var p := name + "=" + value;
    StartsWithConcat(name + "=", value);
    assert p[|name| + 1..] == value;
  }

  lemma FirstValueSkip(p: string, name: string, rest: seq<string>)
    requires !StartsWith(p, name + "=")
    ensures FirstValue([p] + rest, name) == FirstValue(rest, name)
  {
    assert ([p] + rest)[1..] == rest;
  }

  lemma NoAmpersand(a: string, b: string)
    requires '&' !in a && '&' !in b
    ensures '&' !in a + b
  {
    assert forall c :: c in a + b ==> c in a || c in b;
  }

  /**
   * The error page's query carries both values unchanged, as long as the encoder
   * leaves no `&` in them (encodeURIComponent escapes it).
   */
  lemma ErrorPageQuery(url: string, description: string)
    ensures '&' !in url && '&' !in description ==>
      var q := "?url=" + url + "&description=" + description;
      QueryParam(q, "url") == Some(url) && QueryParam(q, "description") == Some(description)
  {
    if '&' !in url && '&' !in description {
      var q := "?url=" + url + "&description=" + description;
      var first, second := "url" + "=" + url, "description" + "=" + description;
      assert q[1..] == first + ['&'] + second;
      NoAmpersand("url" + "=", url);
      NoAmpersand("description" + "=", description);
      SplitFirst(first, '&', second);
      SplitNone(second, '&');
      assert Split(q[1..], '&') == [first] + [second];
      FirstValueHead("url", url, [second]);
      assert first[0] != ("description" + "=")[0];
      FirstValueSkip(first, "description", [second]);
      FirstValueHead("description", description, []);
      assert [second] + [] == [second];
    }
  }

  /** The error page, with the failed url and the failure description as query parameters. */
  function ErrorPageUrl(errorPage: string, encode: string -> string, validatedURL: string,
                        errorCode: int, errorDescription: string): (u: string)
    ensures StartsWith(u, errorPage)
    ensures var url, description := encode(validatedURL), encode(FailureDescription(errorCode, errorDescription));
      '&' !in url && '&' !in description ==>
        && QueryParam(u[|errorPage|..], "url") == Some(url)
        && QueryParam(u[|errorPage|..], "description") == Some(description)
  {
    var url, description := encode(validatedURL), encode(FailureDescription(errorCode, errorDescription));
    var query := "?url=" + url + "&description=" + description;
    StartsWithConcat(errorPage, query);
    ErrorPageQuery(url, description);
    assert (errorPage + query)[|errorPage|..] == query;
    errorPage + query
  }

  /** Navigations to the error page are internal and are not relayed. */
  predicate IsErrorPage(errorPage: string, url: string): (b: bool)
    ensures b <==> exists rest :: url == errorPage + rest
  {
    StartsWith(url, errorPage) && (assert url == errorPage + url[|errorPage|..]; true)
  }

  function React(errorPage: string, encode: string -> string, id: TabId, s: Signal, h: History): (r: Reaction)
    // At most one message per signal, always tagged with the view's tab.
    ensures |r.relayed| <= 1
    ensures forall m :: m in r.relayed ==> Tag(m) == id
    // window.open is always denied and becomes a new_tab message; nothing else answers the runtime.
    ensures r.action.Some? <==> s.WindowOpen?
    ensures s.WindowOpen? ==> r.action == Some(Deny) && r.relayed == [NewTab(id, s.url, s.disposition)]
    // The aborted code is suppressed; every other failure loads the error page and relays fail_load.
    ensures r.load.Some? <==> s.DidFailLoad? && s.errorCode != AbortedErrorCode
    ensures s.DidFailLoad? ==> (r.relayed == [] <==> s.errorCode == AbortedErrorCode)
    ensures r.load.Some? ==> IsErrorPage(errorPage, r.load.value)
    ensures s.DidFailLoad? && s.errorCode != AbortedErrorCode ==>
              && r.relayed == [FailLoad(id, s.errorCode, s.errorDescription, s.validatedURL,
                                        s.isMainFrame, s.frameProcessId, s.frameRoutingId)]
              && r.load == Some(ErrorPageUrl(errorPage, encode, s.validatedURL, s.errorCode, s.errorDescription))
    // Navigations to the error page are filtered; the others carry the history flags as queried.
    ensures (s.DidNavigate? || s.DidNavigateInPage?) ==> (r.relayed == [] <==> IsErrorPage(errorPage, s.url))
    ensures s.DidNavigate? && !IsErrorPage(errorPage, s.url) ==>
              r.relayed == [Navigate(id, s.url, s.httpResponseCode, s.httpStatusText, h.canGoBack, h.canGoForward)]
    ensures s.DidNavigateInPage? && !IsErrorPage(errorPage, s.url) ==>
              r.relayed == [NavigateInPage(id, s.url, s.isMainFrame, s.frameProcessId, s.frameRoutingId,
                                           h.canGoBack, h.canGoForward)]
    // Title, favicon and loading signals are always relayed with their payload.
    ensures s.PageTitleUpdated? ==> r.relayed == [Title(id, s.title, s.explicitSet)]
    ensures s.PageFaviconUpdated? ==> r.relayed == [Favicon(id, s.favicons)]
    ensures s.DidStartLoading? ==> r.relayed == [Loading(id, true)]
    ensures s.DidStopLoading? ==> r.relayed == [Loading(id, false)]
  {
    match s
    case PageTitleUpdated(title, explicitSet) =>
      Reaction([Title(id, title, explicitSet)], None, None)
    case PageFaviconUpdated(favicons) =>
      Reaction([Favicon(id, favicons)], None, None)
    case DidStartLoading =>
      Reaction([Loading(id, true)], None, None)
    case DidStopLoading =>
      Reaction([Loading(id, false)], None, None)
    case DidNavigate(url, code, statusText) =>
      if IsErrorPage(errorPage, url) then Reaction([], None, None)
      else Reaction([Navigate(id, url, code, statusText, h.canGoBack, h.canGoForward)], None, None)
    case DidNavigateInPage(url, isMainFrame, processId, routingId) =>
      if IsErrorPage(errorPage, url) then Reaction([], None, None)
      else Reaction([NavigateInPage(id, url, isMainFrame, processId, routingId, h.canGoBack, h.canGoForward)],
                    None, None)
    case WindowOpen(url, disposition) =>
      Reaction([NewTab(id, url, disposition)], None, Some(Deny))
    case DidFailLoad(code, description, validatedURL, isMainFrame, processId, routingId) =>
      if code == AbortedErrorCode then Reaction([], None, None)
      else
        Reaction([FailLoad(id, code, description, validatedURL, isMainFrame, processId, routingId)],
                 Some(ErrorPageUrl(errorPage, encode, validatedURL, code, description)), None)
  }

  /**
   * The error page a failure loads never reaches the main window as a navigation:
   * when the view then navigates to it, in full or within the page, nothing is relayed.
   */
  lemma ErrorPageNavigationNotRelayed(errorPage: string, encode: string -> string, id: TabId,
                                      failure: Signal, h: History, code: int, status: string,
                                      isMainFrame: bool, processId: int, routingId: int, h': History)
    requires failure.DidFailLoad?
    requires React(errorPage, encode, id, failure, h).load.Some?
    ensures var u := React(errorPage, encode, id, failure, h).load.value;
            && React(errorPage, encode, id, DidNavigate(u, code, status), h').relayed == []
            && React(errorPage, encode, id, DidNavigateInPage(u, isMainFrame, processId, routingId), h').relayed == []
  {
  }

  /** Reads an error code and description back from a failure description. */
  function SplitDescription(s: string): Option<(int, string)> {
    var k := IndexOf(s, ' ');
    if IsIntString(s[..k]) then Some((ParseInt(s[..k]), if k == |s| then "" else s[k + 1..]))
    else None
  }

  /**
   * The description passed to the error page loses nothing: both the code and the
   * (possibly empty) runtime description can be read back from it.
   */
  lemma DescriptionRoundTrip(errorCode: int, errorDescription: string)
    ensures SplitDescription(FailureDescription(errorCode, errorDescription)) == Some((errorCode, errorDescription))
  {
    var c := IntToString(errorCode);
    var s := FailureDescription(errorCode, errorDescription);
    IntToStringRoundTrip(errorCode);
    var k := IndexOf(s, ' ');
    assert s[..|c|] == c;
    forall j | 0 <= j < |c| ensures s[j] != ' ' {
      assert s[j] == c[j];
    }
    assert |c| < |s| ==> s[|c|] == ' ';
    assert k == |c|;
    assert s[..k] == c;
    if errorDescription != "" {
      assert s[k + 1..] == errorDescription;
    }
  }
}
