/**
 * The tab coordinator of the main process: the registry of tab views, the pointer to
 * the active view, the views attached to the main window's content area, and the IPC
 * handlers and window/view callbacks that change them.
 *
 * Electron is abstracted as follows: the window's child views are a set of view ids,
 * input focus is a variable, `mainWindow.webContents.send` appends to a message log,
 * and calls on a view's webContents (loadURL, goBack, goForward, close) append to a
 * request log. What the runtime answers (content bounds, history flags) is a parameter.
 */
module Background {
  import opened Wrappers
  import opened Text
  import opened Registry
  import opened Relay

  /** Height of the title-bar overlay of the main window. */
  const TitleBarHeight: int := 42
  /** Height of the address bar below it. */
  const AddressBarHeight: int := 41
  /** Vertical space the control surface keeps above the tab views. */
  const ChromeHeight: int := TitleBarHeight + AddressBarHeight

  datatype Size = Size(width: int, height: int)
  datatype Rect = Rect(x: int, y: int, width: int, height: int)

  /** resizeView: the view spans the content area's width and fills it from below the chrome to its bottom. */
  function ViewBounds(content: Size): (r: Rect)
    ensures r.x == 0 && r.y == ChromeHeight
    ensures r.width == content.width && r.y + r.height == content.height
  {
    Rect(0, 83, content.width, content.height - 83)
  }

  /** Which webContents was last asked to take input focus. */
  datatype Focus = MainWindow | TabView(view: ViewId)

  /** Calls the coordinator makes on a view's webContents. */
  datatype Request =
    | LoadURL(view: ViewId, url: string)
    | GoBack(view: ViewId)
    | GoForward(view: ViewId)
    | CloseContents(view: ViewId)

  /** What an invoked IPC handler resolves to: `undefined` or a boolean. */
  datatype Reply = Undefined | Returned(ok: bool)

  lemma SubsetCard<T>(a: set<T>, b: set<T>)
    requires a <= b
    ensures |a| <= |b|
  {
    if a != {} {
      var x :| x in a;
      SubsetCard(a - {x}, b - {x});
    }
  }

  /** Every registered view's callbacks were registered with the id it is stored under. */
  ghost predicate Owned(es: seq<Entry>, owner: map<ViewId, TabId>) {
    forall e :: e in es ==> e.view in owner && owner[e.view] == e.id
  }

  /** A view that was not created before is not registered. */
  lemma FreshView(es: seq<Entry>, owner: map<ViewId, TabId>, v: ViewId)
    requires Owned(es, owner) && v !in owner
    ensures v !in Views(es)
  {
  }

  /** Storing a fresh view, whose callbacks capture `id`, under `id`. */
  lemma OwnedAfterPut(es: seq<Entry>, owner: map<ViewId, TabId>, id: TabId, v: ViewId)
    requires Owned(es, owner) && v !in owner
    ensures Owned(Put(es, id, v), owner[v := id])
  {
  }

  /** The coordinator's invariant, over the values of its fields. */
  ghost predicate Inv(tabs: seq<Entry>, activeView: Option<ViewId>, attached: set<ViewId>,
                      owner: map<ViewId, TabId>, nextView: ViewId, lastCreated: Option<ViewId>)
  {
    && UniqueIds(tabs) && DistinctViews(tabs)
    && (forall v :: v in owner ==> v < nextView)
    && Owned(tabs, owner)
    && (activeView.Some? ==> activeView.value in owner)
    && (lastCreated.Some? ==> lastCreated.value in owner)
    // Only registered views are attached ...
    && attached <= Views(tabs)
    // ... and only the active one and the one created last.
    && attached <= OptSet(activeView) + OptSet(lastCreated)
  }

  /** create-tab with a url keeps the invariant. */
  lemma InvAfterCreate(tabs: seq<Entry>, activeView: Option<ViewId>, attached: set<ViewId>,
                       owner: map<ViewId, TabId>, nextView: ViewId, lastCreated: Option<ViewId>, id: TabId)
    requires Inv(tabs, activeView, attached, owner, nextView, lastCreated)
    ensures Inv(Put(tabs, id, nextView), activeView, {nextView}, owner[nextView := id], nextView + 1, Some(nextView))
  {
    var r := Put(tabs, id, nextView);
    assert UniqueIds(r) by {
      PutKeepsUnique(tabs, id, nextView);
    }
    assert DistinctViews(r) by {
      FreshView(tabs, owner, nextView);
      PutKeepsDistinct(tabs, id, nextView);
    }
    assert Owned(r, owner[nextView := id]) by {
      OwnedAfterPut(tabs, owner, id, nextView);
    }
    assert nextView in Views(r);
  }

  class Coordinator {
    /** getProviderPath('/error/'): the address of the error page. */
    const errorPage: string
    /** encodeURIComponent. */
    const encode: string -> string

    /** tabMap, in insertion order. */
    var tabs: seq<Entry>
    var activeView: Option<ViewId>
    /** The tab views that are child views of the main window's content view. */
    var attached: set<ViewId>
    /** The last bounds set on each view. */
    var bounds: map<ViewId, Rect>
    var focus: Focus
    /** Messages sent to the main window. */
    var events: seq<Message>
    /** Calls made on the views' webContents, in order. */
    var requests: seq<Request>
    /** The tab id each view's callbacks were registered with (the closures' captured `id`). */
    var owner: map<ViewId, TabId>
    /** Id of the next view to be created; every created view has a smaller id. */
    var nextView: ViewId
    /** The view of the most recent create-tab with a url. */
    ghost var lastCreated: Option<ViewId>

    ghost predicate Valid()
      reads this
    {
      Inv(tabs, activeView, attached, owner, nextView, lastCreated)
    }

    constructor (errorPage: string, encode: string -> string)
      ensures Valid() && this.errorPage == errorPage && this.encode == encode
      ensures tabs == [] && activeView == None && attached == {} && bounds == map[]
      ensures focus == MainWindow && events == [] && requests == [] && owner == map[] && nextView == 0
    {
      this.errorPage := errorPage;
      this.encode := encode;
      tabs := [];
      activeView := None;
      attached := {};
      bounds := map[];
      focus := MainWindow;
      events := [];
      requests := [];
      owner := map[];
      nextView := 0;
      lastCreated := None;
    }

    /** At most two views are ever attached at once: the active one and the one created last. */
    lemma AtMostTwoAttached()
      requires Valid()
      ensures |attached| <= 2
    {
      SubsetCard(attached, OptSet(activeView) + OptSet(lastCreated));
    }

    /** tabMap.forEach(tab => mainWindow.contentView.removeChildView(tab.view)). */
    method DetachAll()
      modifies this`attached
      ensures attached == old(attached) - Views(tabs)
    {
      var i := 0;
      while i < |tabs|
        invariant 0 <= i <= |tabs|
        invariant attached == old(attached) - Views(tabs[..i])
      {
        assert tabs[..i + 1] == tabs[..i] + [tabs[i]];
        ViewsAppend(tabs[..i], tabs[i]);
        attached := attached - {tabs[i].view};
        i := i + 1;
      }
      assert tabs[..i] == tabs;
    }

    /** The window's resize handler: resizeView on every registered view. */
    method OnResize(content: Size)
      requires Valid()
      modifies this`bounds
      ensures Valid()
      ensures forall v :: v in bounds <==> v in old(bounds) || v in Views(tabs)
      ensures forall v :: v in Views(tabs) ==> bounds[v] == ViewBounds(content)
      ensures forall v :: v in old(bounds) && v !in Views(tabs) ==> bounds[v] == old(bounds)[v]
    {
      var i := 0;
      while i < |tabs|
        invariant 0 <= i <= |tabs|
        invariant forall v :: v in bounds <==> v in old(bounds) || v in Views(tabs[..i])
        invariant forall v :: v in Views(tabs[..i]) ==> bounds[v] == ViewBounds(content)
        invariant forall v :: v in old(bounds) && v !in Views(tabs[..i]) ==> bounds[v] == old(bounds)[v]
      {
        assert tabs[..i + 1] == tabs[..i] + [tabs[i]];
        ViewsAppend(tabs[..i], tabs[i]);
        bounds := bounds[tabs[i].view := ViewBounds(content)];
        i := i + 1;
      }
      assert tabs[..i] == tabs;
    }

    /** 'clear-active-view': detach every view and forget the active one; the registry is kept. */
    method ClearActiveView()
      requires Valid()
      modifies this`attached, this`activeView
      ensures Valid()
      ensures attached == {} && activeView == None
    {
      DetachAll();
      activeView := None;
    }

    /**
     * 'create-tab'. With an empty url: detach every view, focus the main window, create
     * nothing. Otherwise: create a view loading `url`, detach every view, store the new
     * view under `id` (replacing any view stored there), attach and size it.
     */
    method CreateTab(id: TabId, url: string, content: Size) returns (reply: Reply)
      requires Valid()
      modifies this
      ensures Valid()
      ensures activeView == old(activeView) && events == old(events)
      ensures url == "" ==>
        && reply == Undefined && tabs == old(tabs) && attached == {} && focus == MainWindow
        && requests == old(requests) && bounds == old(bounds)
        && owner == old(owner) && nextView == old(nextView)
      ensures url != "" ==>
        var v := old(nextView);
        && reply == Returned(true)
        && tabs == Put(old(tabs), id, v) && attached == {v}
        && requests == old(requests) + [LoadURL(v, url)]
        && bounds == old(bounds)[v := ViewBounds(content)] && focus == old(focus)
        && owner == old(owner)[v := id] && nextView == v + 1
    {
      if url == "" {
        DetachAll();
        focus := MainWindow;
        return Undefined;
      }
      OpenView(id, url, content);
      reply := Returned(true);
    }

    /** The part of 'create-tab' that runs for a non-empty url. */
    method OpenView(id: TabId, url: string, content: Size)
      requires Valid()
      modifies this`nextView, this`requests, this`attached, this`tabs, this`bounds, this`owner, this`lastCreated
      ensures Valid()
      ensures var v := old(nextView);
        && tabs == Put(old(tabs), id, v) && attached == {v}
        && requests == old(requests) + [LoadURL(v, url)]
        && bounds == old(bounds)[v := ViewBounds(content)]
        && owner == old(owner)[v := id] && nextView == v + 1
    {
      var view := nextView;
      requests := requests + [LoadURL(view, url)];
      DetachAll();
      InvAfterCreate(tabs, activeView, attached, owner, view, lastCreated, id);
      tabs := Put(tabs, id, view);
      attached := attached + {view};
      bounds := bounds[view := ViewBounds(content)];
      // The signal callbacks registered from here on capture `id`.
      owner := owner[view := id];
      nextView := view + 1;
      lastCreated := Some(view);
    }

    /**
     * 'switch-tab': detach the active view and clear the pointer; then, when `id` is
     * registered, attach its view, make it active, size it and focus it.
     */
    method SwitchTab(id: TabId, content: Size) returns (ok: bool)
      requires Valid()
      modifies this`attached, this`activeView, this`bounds, this`focus
      ensures Valid()
      ensures ok <==> id in Ids(tabs)
      ensures ok ==>
        var v := Lookup(tabs, id).value;
        && activeView == Some(v) && attached == old(attached) - OptSet(old(activeView)) + {v}
        && focus == TabView(v) && bounds == old(bounds)[v := ViewBounds(content)]
      ensures !ok ==>
        && activeView == None && attached == old(attached) - OptSet(old(activeView))
        && focus == old(focus) && bounds == old(bounds)
    {
      if activeView.Some? {
        attached := attached - {activeView.value};
        activeView := None;
      }
      var tab := Lookup(tabs, id);
      if tab.Some? {
        attached := attached + {tab.value};
        activeView := Some(tab.value);
        bounds := bounds[tab.value := ViewBounds(content)];
        focus := TabView(tab.value);
        return true;
      }
      return false;
    }

    /**
     * 'close-tab': when `id` is registered, close and detach its view, clear the active
     * pointer if it was that view, drop the entry, and focus the main window when no tab is left.
     */
    method CloseTab(id: TabId) returns (ok: bool)
      requires Valid()
      modifies this`tabs, this`attached, this`activeView, this`focus, this`requests
      ensures Valid()
      ensures ok <==> id in old(Ids(tabs))
      ensures id !in Ids(tabs)
      ensures !ok ==>
        && tabs == old(tabs) && attached == old(attached) && activeView == old(activeView)
        && focus == old(focus) && requests == old(requests)
      ensures ok ==>
        var v := Lookup(old(tabs), id).value;
        && tabs == Remove(old(tabs), id) && attached == old(attached) - {v}
        && activeView == (if old(activeView) == Some(v) then None else old(activeView))
        && requests == old(requests) + [CloseContents(v)]
        && focus == (if tabs == [] then MainWindow else old(focus))
    {
      var tab := Lookup(tabs, id);
      if tab.None? {
        return false;
      }
      var view := tab.value;
      requests := requests + [CloseContents(view)];
      attached := attached - {view};
      if activeView == Some(view) {
        activeView := None;
      }
      RemoveKeepsUnique(tabs, id);
      RemoveKeepsDistinct(tabs, id);
      RemoveViews(tabs, id);
      RemoveIds(tabs, id);
      tabs := Remove(tabs, id);
      if |tabs| == 0 {
        focus := MainWindow;
      }
      return true;
    }

    /** 'navigate-tab': ask the tab's view to load `url`; an unknown id does nothing. */
    method NavigateTab(id: TabId, url: string)
      requires Valid()
      modifies this`requests
      ensures Valid()
      ensures requests == old(requests) + match Lookup(tabs, id)
                                          case Some(v) => [LoadURL(v, url)]
                                          case None => []
    {
      var tab := Lookup(tabs, id);
      if tab.Some? {
        requests := requests + [LoadURL(tab.value, url)];
      }
    }

    /**
     * 'navigate-tab-action': BACK goes back only if the view can, FORWARD goes forward
     * only if it can; an unknown id or action does nothing. `h` is what the view's
     * navigation history answers.
     */
    method NavigateTabAction(id: TabId, action: string, h: History)
      requires Valid()
      modifies this`requests
      ensures Valid()
      ensures requests == old(requests) + match Lookup(tabs, id)
        case None => []
        case Some(v) =>
          if action == "BACK" then (if h.canGoBack then [GoBack(v)] else [])
          else if action == "FORWARD" then (if h.canGoForward then [GoForward(v)] else [])
          else []
    {
      var tab := Lookup(tabs, id);
      if tab.Some? {
        if action == "BACK" {
          if h.canGoBack {
            requests := requests + [GoBack(tab.value)];
          }
        } else if action == "FORWARD" {
          if h.canGoForward {
            requests := requests + [GoForward(tab.value)];
          }
        }
      }
    }

    /**
     * A signal from view `v`, handled by the callbacks create-tab registered for it:
     * the messages relayed, the error page requested, the answer to a window.open.
     */
    method OnViewSignal(v: ViewId, s: Signal, h: History) returns (action: Option<WindowOpenAction>)
      requires Valid() && v in owner
      modifies this`events, this`requests
      ensures Valid()
      ensures var r := React(errorPage, encode, owner[v], s, h);
        && events == old(events) + r.relayed
        && requests == old(requests) + (if r.load.Some? then [LoadURL(v, r.load.value)] else [])
        && action == r.action
    {
      var r := React(errorPage, encode, owner[v], s, h);
      if r.load.Some? {
        requests := requests + [LoadURL(v, r.load.value)];
      }
      events := events + r.relayed;
      action := r.action;
    }

    /** The tab-matching loop of the hotkey handler: the first tab whose view is the sender. */
    method MatchSender(sender: int) returns (matched: Option<TabId>)
      ensures matched == FirstWithView(tabs, sender)
    {
      matched := None;
      for i := 0 to |tabs|
        invariant matched == None
        invariant FirstWithView(tabs, sender) == FirstWithView(tabs[i..], sender)
      {
        assert tabs[i..][1..] == tabs[i + 1..];
        if tabs[i].view == sender {
          matched := Some(tabs[i].id);
          break;
        }
      }
      assert tabs[|tabs|..] == [];
    }

    /**
     * 'hotkey': relay the hotkey tagged with the sender's tab; `f6` also focuses the main
     * window. A sender that is no tab's view, or a tab id that is empty (falsy), sends nothing.
     */
    method Hotkey(sender: int, hotkey: string)
      requires Valid()
      modifies this`events, this`focus
      ensures Valid()
      ensures var m := FirstWithView(tabs, sender);
        if m.Some? && m.value != "" then
          && events == old(events) + [HotkeyFromMain(m.value, hotkey)]
          && focus == (if hotkey == "f6" then MainWindow else old(focus))
        else events == old(events) && focus == old(focus)
    {
      var matched := MatchSender(sender);
      if matched.Some? && matched.value != "" {
        if hotkey == "f6" {
          focus := MainWindow;
        }
        events := events + [HotkeyFromMain(matched.value, hotkey)];
      }
    }
  }

  /**
   * create-tab attaches its view without making it active, so switching to an older
   * tab afterwards leaves two views attached: the one switched to and the newest one.
   */
  method TwoViewsAttachedTrace(errorPage: string, encode: string -> string, content: Size)
    returns (c: Coordinator)
    ensures c.Valid() && c.activeView == Some(0) && c.attached == {0, 1}
  {
    c := new Coordinator(errorPage, encode);
    var created := c.CreateTab("a", "https://a.example", content);
    PutLookup([], "a", 0, "a");
    ghost var afterA := c.tabs;
    created := c.CreateTab("b", "https://b.example", content);
    assert "a"[0] != "b"[0];
    PutLookup(afterA, "b", 1, "a");
    assert c.attached == {1} && c.activeView == None;
    var switched := c.SwitchTab("a", content);
    assert c.attached == {1} - {} + {0};
  }

  /** Closing a tab twice in a row: the second close finds nothing and changes nothing. */
  method CloseTabTwice(c: Coordinator, id: TabId) returns (first: bool, second: bool)
    requires c.Valid()
    modifies c
    ensures c.Valid()
    ensures first == (id in old(Ids(c.tabs))) && !second
    ensures c.tabs == Remove(old(c.tabs), id)
  {
    first := c.CloseTab(id);
    ghost var tabs, attached, active, focus, requests := c.tabs, c.attached, c.activeView, c.focus, c.requests;
    second := c.CloseTab(id);
    assert c.tabs == tabs && c.attached == attached && c.activeView == active;
    assert c.focus == focus && c.requests == requests;
  }

  /** 'clear-active-view' is idempotent: a second call leaves the state as the first left it. */
  method ClearActiveViewTwice(c: Coordinator)
    requires c.Valid()
    modifies c
    ensures c.Valid() && c.attached == {} && c.activeView == None && c.tabs == old(c.tabs)
  {
    c.ClearActiveView();
    ghost var attached, active := c.attached, c.activeView;
    c.ClearActiveView();
    assert c.attached == attached && c.activeView == active;
  }
}
