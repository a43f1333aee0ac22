# Tab coordinator of an Electron tabbed-browser shell, in Dafny

This project models the part of the `electron-tabs-template` browser shell that does
real bookkeeping, and proves properties of that model:

- **The main process's tab coordinator** (`main/background.ts`). It has a registry
  (`tabMap`) from tab id to the tab's `WebContentsView` and an `activeView` pointer. It
  also has the IPC handlers `clear-active-view`, `create-tab`, `switch-tab`, `close-tab`,
  `navigate-tab`, `navigate-tab-action` and `hotkey`, the window's resize handler, and the
  per-view callbacks that relay webContents signals to the main window as `tabEvent`
  messages.
- **The control surface's tab strip** (`renderer/app/page.tsx`). Its state is a list of
  `{id, title, url}`, an optional active id and the address-bar text. Its handlers are
  `addTab`, `switchTab`, `closeTab` and `goToURL`.

Files:

- `wrappers.dfy`: `Option`, standing for JavaScript's `null`/`undefined`.
- `text.dfy`: how a JavaScript template literal spells an integer (`${errorCode}`), a
  parser that reads it back, and `startsWith`.
- `registry.dfy`: `tabMap` as a sequence of `(id, view)` entries with distinct ids. This
  keeps a JavaScript Map's insertion order: `set` on a present id replaces in place, `set`
  on a new id appends, `delete` drops the entry.
- `relay.dfy`: the event-relay policy as one pure function, `React`. It maps a webContents
  signal to the messages relayed, the error page to load and the answer to `window.open`.
  The file also holds the error-page URL and its description text.
- `background.dfy`: the class `Coordinator`, whose fields are the coordinator's state. Each
  handler is a method: the `forEach` loops and the hotkey `for` loop stay loops.
  Electron is abstracted as follows:
  - the window's child views are a set of view ids (`attached`);
  - input focus is a variable;
  - `mainWindow.webContents.send` appends to `events`;
  - `loadURL`, `goBack`, `goForward` and `close` on a view append to `requests`;
  - `setBounds` writes `bounds`.
- `renderer.dfy`: the list updates of the page as pure functions (spread-append, `filter`,
  `map`, `find`), and the class `App`. Its handlers apply those updates in the page's order
  and log the IPC messages they send.

The invariant of `Coordinator` (`Valid`) says:

- ids are unique and each view is registered under at most one id;
- every registered view's callbacks capture the id it is stored under;
- only registered views are attached, and only the active view and the most recently
  created one. So at most two views are attached at once (`AtMostTwoAttached`).

## Model

| member | source | states |
|---|---|---|
| `Text.IntToString` | main/background.ts:259 | `${errorCode}` is non-empty and has no space; it starts with `-` exactly when the code is negative, and is digits otherwise, with no leading zero |
| `Text.IntToStringRoundTrip` | main/background.ts:259 | the spelled-out code parses back to the same integer |
| `Text.StartsWith` | main/background.ts:200 | `url.startsWith(prefix)`, compared character by character, holds exactly when the prefix is no longer than the url and equals its first characters |
| `Registry.Lookup` | main/background.ts:284 | `tabMap.get(id)` is absent exactly when no entry has that id; when present, the entry `(id, view)` is in the map |
| `Registry.LookupUnique` | main/background.ts:43 | with distinct ids, the view stored under an id is the one `get` returns |
| `Registry.Put` | main/background.ts:176 | `tabMap.set` appends a new id at the end and keeps the length when the id is present; the result holds the new entry and only old entries besides |
| `Registry.PutLookup` | main/background.ts:176 | after `set`, the id maps to the new view and every other id keeps its view |
| `Registry.PutKeepsUnique` | main/background.ts:176 | after `set`, the key set is the old one plus the id, and ids stay distinct |
| `Registry.PutKeepsDistinct` | main/background.ts:167-176 | storing a newly created view keeps views distinct and adds no view but it |
| `Registry.Remove` | main/background.ts:305 | `tabMap.delete` keeps exactly the entries with other ids; on an absent id it changes nothing |
| `Registry.RemoveLookup` | main/background.ts:305 | after `delete`, the id is absent and every other id keeps its view |
| `Registry.RemoveIds` | main/background.ts:305 | after `delete`, the key set is the old one minus the id |
| `Registry.RemoveKeepsUnique` | main/background.ts:305 | `delete` keeps ids distinct |
| `Registry.RemoveKeepsDistinct` | main/background.ts:305 | `delete` keeps views distinct |
| `Registry.RemoveLength` | main/background.ts:305-306 | `delete` of a present id lowers `tabMap.size` by exactly one, of an absent id not at all |
| `Registry.RemoveViews` | main/background.ts:305 | `delete` loses no view other than the one stored under the deleted id |
| `Registry.FirstWithView` | main/background.ts:332-338 | the hotkey match is absent exactly when no tab's view has the sender's id; otherwise it is the first such tab in Map order |
| `Registry.FirstWithViewIsOwner` | main/background.ts:333-337 | with distinct views, the match is the one tab registered with the sender's view |
| `Relay.FailureDescription` | main/background.ts:259 | the description text starts with the spelled-out code, and is exactly that code when the runtime description is empty |
| `Relay.ErrorPageQuery` | main/background.ts:257-261 | a query `?url=<a>&description=<b>` whose values hold no `&` reads back `a` for `url` and `b` for `description`, as `URLSearchParams.get` finds them |
| `Relay.ErrorPageUrl` | main/background.ts:255-261 | the URL loaded after a failure starts with the error-page address, and its query's `url` parameter is the encoded failed url and its `description` parameter the encoded failure description (whenever the encoder leaves no `&` in them) |
| `Relay.IsErrorPage` | main/background.ts:200-215 | a url is filtered as the error page exactly when it is the error-page address followed by anything |
| `Relay.React` | main/background.ts:183-274 | at most one message per signal, tagged with the view's tab; `title`, `favicon` and `loading` (true on start, false on stop) relayed with their payload; `window.open` always denied and turned into `new_tab(fromId, url, disposition)`; code -3 loads nothing and relays nothing; every other failure loads `ErrorPageUrl` of its url, code and description and relays one `fail_load` with all six fields; navigations to the error page are not relayed, all others are relayed as `navigate` / `navigate_in_page` with every field of the signal and the queried `canGoBack`/`canGoForward` |
| `Relay.ErrorPageNavigationNotRelayed` | main/background.ts:199-261 | when a view then navigates to the error page its failure loaded, by `did-navigate` or `did-navigate-in-page`, nothing reaches the main window |
| `Relay.DescriptionRoundTrip` | main/background.ts:258-260 | the `description` parameter (the code alone, or the code, a space and the runtime description) loses nothing: code and description read back exactly |
| `Background.ViewBounds` | main/background.ts:63-68 | a view's bounds start at x 0 below the 42 + 41 pixel title and address bars, span the content width and reach the content area's bottom |
| `Background.InvAfterCreate` | main/background.ts:167-178 | storing a fresh view under an id, attaching only it and recording it as the newest keeps the coordinator's invariant |
| `Background.Coordinator.constructor` | main/background.ts:43-44 | the coordinator starts with an empty `tabMap`, no active view, nothing attached and empty logs |
| `Background.Coordinator.AtMostTwoAttached` | main/background.ts:152-310 | under the invariant, at most two views are attached to the content area |
| `Background.Coordinator.DetachAll` | main/background.ts:153-155 | the `forEach` loop removes exactly the registered views from the content area |
| `Background.Coordinator.OnResize` | main/background.ts:145-149 | every registered view (active or not) gets `ViewBounds` of the window's content size; other bounds are untouched |
| `Background.Coordinator.ClearActiveView` | main/background.ts:152-157 | nothing is attached and the active pointer is null afterwards; `tabMap` and everything else are unchanged |
| `Background.Coordinator.CreateTab` | main/background.ts:159-178 | empty url: resolves to `undefined`, every view detached, main window focused, registry unchanged; otherwise: resolves to true; one new view loads the url and is stored under the id (replacing an existing view there); only it is attached and sized; `activeView` and focus unchanged |
| `Background.Coordinator.OpenView` | main/background.ts:167-178 | the non-empty-url part of create-tab: new view, load request, detach all, `set`, attach, size, callbacks capturing the id |
| `Background.Coordinator.SwitchTab` | main/background.ts:278-294 | true exactly when the id is registered; the previous active view is detached; on success the tab's view becomes active, is attached, sized and focused; on failure the pointer is null |
| `Background.Coordinator.CloseTab` | main/background.ts:296-310 | true exactly when the id was registered, and the id is absent afterwards; unknown id: nothing changes; known id: its view is closed and detached, the pointer is cleared only if it was that view, exactly that entry is deleted, and the main window is focused when no tab is left |
| `Background.Coordinator.NavigateTab` | main/background.ts:312-315 | a registered tab's view is asked to load the url; an unknown id does nothing |
| `Background.Coordinator.NavigateTabAction` | main/background.ts:316-326 | `BACK` calls `goBack` only if the view can go back, `FORWARD` calls `goForward` only if it can go forward; unknown ids and actions do nothing |
| `Background.Coordinator.OnViewSignal` | main/background.ts:183-274 | a view's callbacks append exactly `React`'s messages, tagged with the id the view was created under, request exactly `React`'s error page, and answer a `window.open` as `React` says |
| `Background.Coordinator.MatchSender` | main/background.ts:332-338 | the `for` loop with `break` returns the first tab (in Map order) whose view is the sender |
| `Background.Coordinator.Hotkey` | main/background.ts:327-350 | a matched tab with a non-empty id gets one `hotkeyFromMain(id, hotkey)` message, and `f6` also focuses the main window; otherwise nothing is sent and focus is unchanged |
| `Background.TwoViewsAttachedTrace` | main/background.ts:159-294 | after create-tab a, create-tab b and switch-tab a, both views are attached and a is active |
| `Background.CloseTabTwice` | main/background.ts:296-310 | closing an id twice in a row: the second close returns false and leaves the state as the first left it |
| `Background.ClearActiveViewTwice` | main/background.ts:152-157 | clear-active-view is idempotent |
| `Renderer.NewTabId` | renderer/app/page.tsx:14 | a new tab's id is `tab-` followed by the spelled-out time, which reads back to that time |
| `Renderer.NewTabIdInjective` | renderer/app/page.tsx:14 | tabs created at different times get different ids |
| `Renderer.FindById` | renderer/app/page.tsx:23 | `find(t => t.id === id)` is absent exactly when no tab has the id; otherwise it is the first tab with it |
| `Renderer.FindOther` | renderer/app/page.tsx:35 | `find(t => t.id !== id)` is absent exactly when every tab has the id; otherwise it is the first tab with another id |
| `Renderer.FindOtherThenById` | renderer/app/page.tsx:35-37 | looking the chosen next tab up again by its own id finds that same tab, so closeTab shows its url |
| `Renderer.WithoutId` | renderer/app/page.tsx:32 | `filter` keeps exactly the tabs with another id; it keeps the length exactly when no tab has the id |
| `Renderer.WithoutIdConcat` | renderer/app/page.tsx:32 | `filter` distributes over concatenation, so the remaining tabs keep their relative order |
| `Renderer.WithoutIdUnchanged` | renderer/app/page.tsx:32 | closing an id no tab has leaves the list as it is |
| `Renderer.WithoutIdIdempotent` | renderer/app/page.tsx:32 | closing the same id twice removes nothing more the second time |
| `Renderer.WithUrl` | renderer/app/page.tsx:44 | `map` keeps the length; the tabs with the id get the new url and keep id and title; all other tabs are unchanged |
| `Renderer.FindAfterWithUrl` | renderer/app/page.tsx:44 | after goToURL, looking the tab up finds it with the entered url |
| `Renderer.App.constructor` | renderer/app/page.tsx:9-11 | no tabs, no active tab, empty address bar |
| `Renderer.App.AddTab` | renderer/app/page.tsx:13-20 | exactly one tab `(tab-<now>, 'New Tab', 'https://example.com')` is appended, the earlier tabs are unchanged and in order; it becomes active, its url is shown, and `create-tab` is sent |
| `Renderer.App.SwitchIn` | renderer/app/page.tsx:22-29 | switchTab over the tab list of the render that created it: unknown id changes nothing; a present id becomes active with its url shown, and `switch-tab` is sent |
| `Renderer.App.SwitchTab` | renderer/app/page.tsx:22-29 | switchTab on the current list: unknown id changes nothing; a present id becomes active and its url is shown; the list is untouched |
| `Renderer.App.CloseTab` | renderer/app/page.tsx:31-40 | every tab with the id is removed and `close-tab` is sent; if it was active and the list before the close held more than one tab, the first tab of that list with another id becomes active with its url shown; otherwise the active id and input are unchanged |
| `Renderer.App.GoToURL` | renderer/app/page.tsx:42-47 | with an active id, exactly the tabs with that id get the typed url and `load-url` is sent; with none it is a no-op; the length never changes |
| `Renderer.App.SetUrlInput` | renderer/app/page.tsx:91 | the address-bar text becomes what was typed |
| `Renderer.CloseLastOfThreeTrace` | renderer/app/page.tsx:31-40 | with three tabs and the last one active, closing it activates the first tab, not its left neighbour |

### Where the code departs from what one would expect

The model follows the code in each of these cases:

- **Single visible view.** One would expect at most one attached view, the active one. `create-tab`
  attaches its view but does not set `activeView`, so a later `switch-tab` detaches only the
  old active view. After create a, create b, switch a, both views are attached
  (`TwoViewsAttachedTrace`). What the code keeps is "attached ⊆ {active view, newest
  view}".
- **Resize.** One would expect only the active view to be resized. The resize handler resizes every
  registered view.
- **Duplicate ids.** One would expect a duplicate id not to overwrite the tab registered under it. `create-tab`
  overwrites it with `Map.set`. The replaced view is neither closed nor unregistered from
  its callbacks, so it keeps relaying signals tagged with that id.
- **Closing the active tab.** One would expect the left neighbour to become active. The page
  picks the first tab that remains (`CloseLastOfThreeTrace`). Closing the only tab leaves
  `activeTab` set to the closed id.
- **The `disposition` of `window.open`.** It is relayed as the runtime's raw string, not
  normalised to foreground/background.

## Left out

- Application and window setup: the splash window, `createWindow`, overlay colours and
  theme updates, `serve`, the context-menu configuration, the application menu,
  `app.quit`, and the logging of the main window's and splash window's load failures. This
  is library wiring.
- `getProviderPath`: left out because it depends on the environment and argv. The error
  page's address is the constant field `Coordinator.errorPage`.
- `encodeURIComponent`: left out because its behaviour belongs to the platform. It is the
  uninterpreted function field `Coordinator.encode`.
- Relay.ErrorPageUrl: the query read-back holds only when `encode`'s results contain no `&`,
  which `encodeURIComponent` guarantees but the uninterpreted `encode` cannot; the query
  reader `QueryParam` stops before percent-decoding.
- The context-menu callback each new view registers, and every `console.log` call: neither
  changes state.
- `resizeView`'s `if (!mainWindow) return`: the main window always exists before any
  handler is registered.
- Everything the runtime answers is a parameter and is not modelled: the window's content
  bounds, each view's navigation history (`canGoBack`/`canGoForward`), `Date.now`, and the
  `sender.id` of a hotkey. How `goBack`/`goForward`/`loadURL` then change the view is the
  runtime's business.
- webContents ids are taken to be assigned in creation order, from 0; only their
  distinctness matters.
- The asynchronous event loop: each handler and each callback is one atomic step, and
  event delivery order is not modelled.
- The IPC transport. The page sends `create-tab`, `switch-tab`, `close-tab` and `load-url`
  via `send`, while the main process `handle`s invoke-style channels and has no `load-url`
  handler. The two layers are not connected end to end.
- Renderer markup and React internals: the wheel scrolling of the tab bar, `TabItem`
  (rendering only), `useContainerWidth`, `layout.tsx` and the error page itself.
- The preload bridges (`main/preload.ts`, `main/preloadWebview.ts`): thin wrappers over
  Electron and Mousetrap.
- React's batching of state updates: each setter takes effect in call order. Reads of the
  list from the render's closure in `closeTab` and `switchTab` are kept explicit
  (`SwitchIn`).
- Text.IntToString: covers integer error codes only, not JavaScript's spelling of
  non-integer or very large numbers, which Chromium error codes never are.
