/**
 * The control surface's tab strip (the `App` page): a list of tabs, the active tab id
 * and the address-bar input, and the handlers that update them. The list updates are
 * pure functions (the spread-append, `filter`, `map` and `find` of the page); each
 * handler is a method that applies them in the order the page calls its setters and
 * records the IPC messages it sends to the main process.
 */
module Renderer {
  import opened Wrappers
  import opened Text

  datatype Tab = Tab(id: string, title: string, url: string)

  /** IPC messages sent through `window.electronAPI`. */
  datatype Ipc =
    | SendCreateTab(id: string, url: string)   // 'create-tab'
    | SendSwitchTab(id: string)                // 'switch-tab'
    | SendCloseTab(id: string)                 // 'close-tab'
    | SendLoadURL(id: string, url: string)     // 'load-url'

  const NewTabTitle: string := "New Tab"
  const NewTabUrl: string := "https://example.com"

  /** `tab-${Date.now()}`. */
  function NewTabId(now: int): (id: string)
    ensures StartsWith(id, "tab-") && IsIntString(id[4..]) && ParseInt(id[4..]) == now
  {
    var id := "tab-" + IntToString(now);
    StartsWithConcat("tab-", IntToString(now));
    assert id[4..] == IntToString(now);
    IntToStringRoundTrip(now);
    id
  }

  /** Tabs created at different times get different ids. */
  lemma NewTabIdInjective(a: int, b: int)
    ensures NewTabId(a) == NewTabId(b) <==> a == b
  {
  }

  /** tabs.find(t => t.id === id). */
  function FindById(ts: seq<Tab>, id: string): (r: Option<Tab>)
    ensures r.None? <==> forall i :: 0 <= i < |ts| ==> ts[i].id != id
    ensures r.Some? ==> exists i :: 0 <= i < |ts| && ts[i] == r.value && r.value.id == id
                          && forall j :: 0 <= j < i ==> ts[j].id != id
  {
    if ts == [] then None
    else if ts[0].id == id then Some(ts[0])
    else
      var r := FindById(ts[1..], id);
      if r.Some? then
        var i :| 0 <= i < |ts[1..]| && ts[1..][i] == r.value && r.value.id == id
                 && forall j :: 0 <= j < i ==> ts[1..][j].id != id;
        assert ts[i + 1] == r.value;
        r
      else r
  }

  /** tabs.find(t => t.id !== id). */
  function FindOther(ts: seq<Tab>, id: string): (r: Option<Tab>)
    ensures r.None? <==> forall i :: 0 <= i < |ts| ==> ts[i].id == id
    ensures r.Some? ==> exists i :: 0 <= i < |ts| && ts[i] == r.value && r.value.id != id
                          && forall j :: 0 <= j < i ==> ts[j].id == id
  {
    if ts == [] then None
    else if ts[0].id != id then Some(ts[0])
    else
      var r := FindOther(ts[1..], id);
      if r.Some? then
        var i :| 0 <= i < |ts[1..]| && ts[1..][i] == r.value && r.value.id != id
                 && forall j :: 0 <= j < i ==> ts[1..][j].id == id;
        assert ts[i + 1] == r.value;
        r
      else r
  }

  /** The first tab with another id is also the first tab carrying its own id. */
  lemma FindOtherThenById(ts: seq<Tab>, id: string)
    requires FindOther(ts, id).Some?
    ensures FindById(ts, FindOther(ts, id).value.id) == FindOther(ts, id)
  {
    var n := FindOther(ts, id).value;
    var i :| 0 <= i < |ts| && ts[i] == n && n.id != id && forall j :: 0 <= j < i ==> ts[j].id == id;
    var m := FindById(ts, n.id).value;
    var k :| 0 <= k < |ts| && ts[k] == m && m.id == n.id && forall j :: 0 <= j < k ==> ts[j].id != n.id;
    assert k == i;
  }

  /** tabs.filter(tab => tab.id !== id). */
  function WithoutId(ts: seq<Tab>, id: string): (r: seq<Tab>)
    ensures forall t :: t in r <==> t in ts && t.id != id
    ensures |r| <= |ts|
    ensures |r| == |ts| <==> forall i :: 0 <= i < |ts| ==> ts[i].id != id
  {
    if ts == [] then []
    else if ts[0].id == id then WithoutId(ts[1..], id)
    else
      var rest := WithoutId(ts[1..], id);
      assert |rest| == |ts[1..]| <==> forall i :: 1 <= i < |ts| ==> ts[i].id != id by {
        forall i | 1 <= i < |ts| ensures ts[i] == ts[1..][i - 1] { }
      }
      [ts[0]] + rest
  }

  /** filter keeps the remaining tabs in their relative order: it distributes over concatenation. */
  lemma {:induction false} WithoutIdConcat(a: seq<Tab>, b: seq<Tab>, id: string)
    ensures WithoutId(a + b, id) == WithoutId(a, id) + WithoutId(b, id)
  {
    if a == [] {
      assert a + b == b;
    } else {
      assert (a + b)[1..] == a[1..] + b;
      WithoutIdConcat(a[1..], b, id);
    }
  }

  /** Closing twice in a row removes nothing more the second time. */
  lemma WithoutIdIdempotent(ts: seq<Tab>, id: string)
    ensures WithoutId(WithoutId(ts, id), id) == WithoutId(ts, id)
  {
    var r := WithoutId(ts, id);
    assert forall i :: 0 <= i < |r| ==> r[i] in r;
    WithoutIdUnchanged(r, id);
  }

  /** A list without the id is left as it is. */
  lemma {:induction false} WithoutIdUnchanged(ts: seq<Tab>, id: string)
    requires forall i :: 0 <= i < |ts| ==> ts[i].id != id
    ensures WithoutId(ts, id) == ts
  {
    if ts != [] {
      assert forall i :: 0 <= i < |ts[1..]| ==> ts[1..][i] == ts[i + 1];
      WithoutIdUnchanged(ts[1..], id);
    }
  }

  /** tabs.map(t => (t.id === id ? { ...t, url } : t)). */
  function WithUrl(ts: seq<Tab>, id: string, url: string): (r: seq<Tab>)
    ensures |r| == |ts|
    ensures forall i :: 0 <= i < |ts| ==>
              r[i] == if ts[i].id == id then ts[i].(url := url) else ts[i]
  {
    if ts == [] then [] else [if ts[0].id == id then ts[0].(url := url) else ts[0]] + WithUrl(ts[1..], id, url)
  }

  /** After goToURL, switching to the tab shows the url that was entered. */
  lemma {:induction false} FindAfterWithUrl(ts: seq<Tab>, id: string, url: string)
    requires FindById(ts, id).Some?
    ensures FindById(WithUrl(ts, id, url), id) == Some(FindById(ts, id).value.(url := url))
  {
    if ts[0].id != id {
      assert WithUrl(ts, id, url)[1..] == WithUrl(ts[1..], id, url);
      FindAfterWithUrl(ts[1..], id, url);
    }
  }

  class App {
    var tabs: seq<Tab>
    var activeTab: Option<string>
    var urlInput: string
    /** IPC messages sent to the main process, in order. */
    var sent: seq<Ipc>

    constructor ()
      ensures tabs == [] && activeTab == None && urlInput == "" && sent == []
    {
      tabs := [];
      activeTab := None;
      urlInput := "";
      sent := [];
    }

    /** addTab: append a fresh tab, make it active, show its url, ask the main process to create it. */
    method AddTab(now: int)
      modifies this
      ensures var t := Tab(NewTabId(now), NewTabTitle, NewTabUrl);
        && |tabs| == |old(tabs)| + 1 && tabs[..|old(tabs)|] == old(tabs) && tabs[|old(tabs)|] == t
        && activeTab == Some(t.id) && urlInput == NewTabUrl
        && sent == old(sent) + [SendCreateTab(t.id, NewTabUrl)]
    {
      var id := NewTabId(now);
      var url := NewTabUrl;
      tabs := tabs + [Tab(id, NewTabTitle, url)];
      activeTab := Some(id);
      urlInput := url;
      sent := sent + [SendCreateTab(id, url)];
    }

    /** switchTab as created by a render whose tab list was `rendered`. */
    method SwitchIn(rendered: seq<Tab>, id: string)
      modifies this`activeTab, this`urlInput, this`sent
      ensures match FindById(rendered, id)
        case None => activeTab == old(activeTab) && urlInput == old(urlInput) && sent == old(sent)
        case Some(t) => activeTab == Some(id) && urlInput == t.url && sent == old(sent) + [SendSwitchTab(id)]
    {
      var tab := FindById(rendered, id);
      if tab.Some? {
        activeTab := Some(id);
        urlInput := tab.value.url;
        sent := sent + [SendSwitchTab(id)];
      }
    }

    /** switchTab: an id on the strip becomes active and its url is shown; any other id does nothing. */
    method SwitchTab(id: string)
      modifies this`activeTab, this`urlInput, this`sent
      ensures match FindById(tabs, id)
        case None => activeTab == old(activeTab) && urlInput == old(urlInput) && sent == old(sent)
        case Some(t) => activeTab == Some(id) && urlInput == t.url && sent == old(sent) + [SendSwitchTab(id)]
    {
      SwitchIn(tabs, id);
    }

    /**
     * closeTab: drop every tab with the id and tell the main process; when the closed tab
     * was active and the strip (as rendered, before the close) held more than one tab,
     * switch to the first tab of that list with another id.
     */
    method CloseTab(id: string)
      modifies this`tabs, this`activeTab, this`urlInput, this`sent
      ensures tabs == WithoutId(old(tabs), id)
      ensures var next := FindOther(old(tabs), id);
        if old(activeTab) == Some(id) && |old(tabs)| > 1 && next.Some? then
          && activeTab == Some(next.value.id) && urlInput == next.value.url
          && sent == old(sent) + [SendCloseTab(id), SendSwitchTab(next.value.id)]
        else
          activeTab == old(activeTab) && urlInput == old(urlInput) && sent == old(sent) + [SendCloseTab(id)]
    {
      var rendered := tabs;
      tabs := WithoutId(tabs, id);
      sent := sent + [SendCloseTab(id)];
      if activeTab == Some(id) && |rendered| > 1 {
        var next := FindOther(rendered, id);
        if next.Some? {
          FindOtherThenById(rendered, id);
          SwitchIn(rendered, next.value.id);
        }
      }
    }

    /** goToURL: the active tab (if any, and not the empty id) gets the typed url, which is sent to the main process. */
    method GoToURL()
      modifies this`tabs, this`sent
      ensures |tabs| == |old(tabs)|
      ensures if activeTab.Some? && activeTab.value != "" then
          tabs == WithUrl(old(tabs), activeTab.value, urlInput)
          && sent == old(sent) + [SendLoadURL(activeTab.value, urlInput)]
        else tabs == old(tabs) && sent == old(sent)
    {
      if activeTab.Some? && activeTab.value != "" {
        tabs := WithUrl(tabs, activeTab.value, urlInput);
        sent := sent + [SendLoadURL(activeTab.value, urlInput)];
      }
    }

    /** The address bar's onChange. */
    method SetUrlInput(text: string)
      modifies this`urlInput
      ensures urlInput == text
    {
      urlInput := text;
    }
  }

  /**
   * Three tabs opened one after the other, the last one active: closing it activates
   * the first tab of the strip, not its left neighbour.
   */
  method CloseLastOfThreeTrace() returns (app: App)
    ensures |app.tabs| == 2 && app.activeTab == Some(NewTabId(1))
  {
    app := new App();
    app.AddTab(1);
    app.AddTab(2);
    app.AddTab(3);
    NewTabIdInjective(1, 3);
    app.CloseTab(NewTabId(3));
  }
}
