/**
 * The web view's page state: the loading state machine that the client and chrome-client
 * callbacks drive, the navigator's back/forward flags, and the map the state is saved to and
 * restored from. Progress is an integer percent (`newProgress`), not the float fraction.
 */
module WebView {
  import opened Wrappers

  datatype LoadingState = Initializing | Loading | Finished

  /** A bitmap the page offers as its icon, and the opaque bundle a view saves its history to. */
  type Bitmap = seq<bv8>
  datatype Bundle = Bundle(entries: seq<bv8>)

  /** What the callbacks read of the Android view: its navigation flags and the state it saves. */
  datatype View = View(canGoBack: bool, canGoForward: bool, saved: Bundle)

  /** The part of the state the callbacks update. */
  datatype Page = Page(
    lastLoadedUrl: Option<string>,
    loadingState: LoadingState,
    progress: int,
    pageTitle: Option<string>,
    pageIcon: Option<Bitmap>)

  /** A fresh state: still initializing, progress 0, and no url, title or icon. */
  const InitialPage := Page(None, Initializing, 0, None, None)

  /** The callbacks that update the page state, in the order the view makes them. */
  datatype Event =
    | PageStarted(url: string)
    | PageFinished
    | ReceivedTitle(title: string)
    | ReceivedIcon(icon: Bitmap)
    | ProgressChanged(newProgress: int)

  /** The page state after one callback. */
  function Step(p: Page, e: Event): (r: Page)
    ensures r.loadingState == Finished <==> e.PageFinished? || (p.loadingState == Finished && !e.PageStarted?)
    ensures e.PageStarted? ==> r.pageTitle.None? && r.pageIcon.None? && r.lastLoadedUrl == Some(e.url)
    ensures !e.PageStarted? ==> r.lastLoadedUrl == p.lastLoadedUrl
  {
    match e
    case PageStarted(url) =>
      p.(loadingState := Initializing, pageTitle := None, pageIcon := None, lastLoadedUrl := Some(url))
    case PageFinished =>
      p.(loadingState := Finished, progress := 0)
    case ReceivedTitle(title) =>
      p.(pageTitle := Some(title))
    case ReceivedIcon(icon) =>
      p.(pageIcon := Some(icon))
    case ProgressChanged(newProgress) =>
      if p.loadingState == Finished then p else p.(loadingState := Loading, progress := newProgress)
  }

  /** The page state after a sequence of callbacks. */
  function Run(p: Page, events: seq<Event>): Page
    decreases |events|
  {
    if events == [] then p else Run(Step(p, events[0]), events[1..])
  }

  /** `isLoading`. */
  predicate PageLoading(p: Page) {
    p.loadingState != Finished
  }

  /** The url of the last `onPageStarted` among `events`, if there is one. */
  function LastStartedUrl(events: seq<Event>): Option<string>
    decreases |events|
  {
    if events == [] then None
    else
      var later := LastStartedUrl(events[1..]);
      if later.Some? then later else if events[0].PageStarted? then Some(events[0].url) else None
  }

  /** The last `onPageStarted` or `onPageFinished` among `events`, if there is one. */
  function LastLifecycle(events: seq<Event>): Option<Event>
    decreases |events|
  {
    if events == [] then None
    else
      var later := LastLifecycle(events[1..]);
      if later.Some? then later
      else if events[0].PageStarted? || events[0].PageFinished? then Some(events[0]) else None
  }

  /** `lastLoadedUrl` is the url of the last page started, whatever other callbacks came. */
  lemma {:induction false} RunLastLoadedUrl(p: Page, events: seq<Event>)
    ensures var u := LastStartedUrl(events);
      Run(p, events).lastLoadedUrl == if u.Some? then u else p.lastLoadedUrl
    decreases |events|
  {
    if events != [] {
      RunLastLoadedUrl(Step(p, events[0]), events[1..]);
    }
  }

  /**
   * `isLoading` is decided by the last start or finish of a page: progress reports never end a
   * load, and after the page finished they change nothing.
   */
  lemma {:induction false} RunIsLoading(p: Page, events: seq<Event>)
    ensures var last := LastLifecycle(events);
      !PageLoading(Run(p, events)) <==> if last.Some? then last.value.PageFinished? else !PageLoading(p)
    decreases |events|
  {
    if events != [] {
      RunIsLoading(Step(p, events[0]), events[1..]);
    }
  }

  /** A finished page reports no progress; a load in progress may report any. */
  predicate Settled(p: Page) {
    p.loadingState == Finished ==> p.progress == 0
  }

  /** Every callback keeps a finished page's progress at 0. */
  lemma {:induction false} RunSettled(p: Page, events: seq<Event>)
    requires Settled(p)
    ensures Settled(Run(p, events))
    decreases |events|
  {
    if events != [] {
      RunSettled(Step(p, events[0]), events[1..]);
    }
  }

  /** Once the page finished, progress reports are ignored: only title and icon can still change. */
  lemma {:induction false} FinishedIgnoresProgress(p: Page, events: seq<Event>)
    requires p.loadingState == Finished
    requires forall i :: 0 <= i < |events| ==> !events[i].PageStarted?
    ensures var r := Run(p, events);
      r.loadingState == Finished && r.lastLoadedUrl == p.lastLoadedUrl
      && (p.progress == 0 || (forall i :: 0 <= i < |events| ==> !events[i].PageFinished?) ==> r.progress == p.progress)
    decreases |events|
  {
    if events != [] {
      FinishedIgnoresProgress(Step(p, events[0]), events[1..]);
    }
  }

  /** The values a saved-state map holds: null, a string or a bundle. */
  datatype Value = Null | Text(s: string) | Bundled(b: Bundle)

  datatype RestoreError = CastError(key: string)

  const PageTitleKey := "pageTitle"
  const LastLoadedUrlKey := "lastLoadedUrl"
  const StateBundleKey := "bundle"

  function OptionalText(t: Option<string>): Value {
    if t.Some? then Text(t.value) else Null
  }

  /** The bundle a view saves its state to: empty when there is no view yet. */
  function SavedBundle(view: Option<View>): Bundle {
    if view.Some? then view.value.saved else Bundle([])
  }

  /** `WebStateSaver`'s save: the title, the last loaded url and the view's saved state under their keys. */
  function Save(p: Page, view: Option<View>): (m: map<string, Value>)
    ensures m.Keys == {PageTitleKey, LastLoadedUrlKey, StateBundleKey}
  {
    map[PageTitleKey := OptionalText(p.pageTitle),
        LastLoadedUrlKey := OptionalText(p.lastLoadedUrl),
        StateBundleKey := Bundled(SavedBundle(view))]
  }

  /** `as String?` on an entry: null when the key is missing or null, a cast error when it is a bundle. */
  function AsText(m: map<string, Value>, key: string): (r: Result<Option<string>, RestoreError>)
    ensures r.Err? <==> key in m && m[key].Bundled?
    ensures r.Ok? && r.value.Some? <==> key in m && m[key].Text?
  {
    if key !in m then Ok(None)
    else match m[key]
      case Null => Ok(None)
      case Text(s) => Ok(Some(s))
      case Bundled(_) => Err(CastError(key))
  }

  /** `as Bundle?` on an entry: null when the key is missing or null, a cast error when it is a string. */
  function AsBundle(m: map<string, Value>, key: string): (r: Result<Option<Bundle>, RestoreError>)
    ensures r.Err? <==> key in m && m[key].Text?
    ensures r.Ok? && r.value.Some? <==> key in m && m[key].Bundled?
  {
    if key !in m then Ok(None)
    else match m[key]
      case Null => Ok(None)
      case Text(_) => Err(CastError(key))
      case Bundled(b) => Ok(Some(b))
  }

  /** What `restore` reads back: title, last loaded url and view state, or the first failed cast. */
  datatype Restored = Restored(pageTitle: Option<string>, lastLoadedUrl: Option<string>, viewState: Option<Bundle>)

  function RestoreFields(m: map<string, Value>): (r: Result<Restored, RestoreError>)
    ensures r.Ok? <==> AsText(m, PageTitleKey).Ok? && AsText(m, LastLoadedUrlKey).Ok?
                            && AsBundle(m, StateBundleKey).Ok?
  {
    var title := AsText(m, PageTitleKey);
    if title.Err? then Err(title.error)
    else
      var url := AsText(m, LastLoadedUrlKey);
      if url.Err? then Err(url.error)
      else
        var bundle := AsBundle(m, StateBundleKey);
        if bundle.Err? then Err(bundle.error)
        else Ok(Restored(title.value, url.value, bundle.value))
  }

  /** Restoring what was saved gives back the title, the last loaded url and the view's saved state. */
  lemma SaveRestore(p: Page, view: Option<View>)
    ensures RestoreFields(Save(p, view)) == Ok(Restored(p.pageTitle, p.lastLoadedUrl, Some(SavedBundle(view))))
  {
    var m := Save(p, view);
    assert m[PageTitleKey] == OptionalText(p.pageTitle);
    assert m[LastLoadedUrlKey] == OptionalText(p.lastLoadedUrl);
    assert m[StateBundleKey] == Bundled(SavedBundle(view));
  }

  /** `WebViewNavigator`'s navigation flags. */
  class WebViewNavigator {
    var canGoBack: bool
    var canGoForward: bool

    constructor ()
      ensures !canGoBack && !canGoForward
    {
      canGoBack := false;
      canGoForward := false;
    }
  }

  /** `WebViewState`. */
  class WebViewState {
    var lastLoadedUrl: Option<string>
    var loadingState: LoadingState
    var progress: int
    var pageTitle: Option<string>
    var pageIcon: Option<Bitmap>
    var viewState: Option<Bundle>
    var webView: Option<View>

    function CurrentPage(): Page
      reads this
    {
      Page(lastLoadedUrl, loadingState, progress, pageTitle, pageIcon)
    }

    constructor ()
      ensures CurrentPage() == InitialPage && viewState.None? && webView.None?
    {
      lastLoadedUrl := None;
      loadingState := Initializing;
      progress := 0;
      pageTitle := None;
      pageIcon := None;
      viewState := None;
      webView := None;
    }

    /** `isLoading`. */
    function IsLoading(): (r: bool)
      reads this
      ensures r == PageLoading(CurrentPage())
    {
      loadingState != Finished
    }

    /** Applies one callback to the page state; the view and its saved state are left alone. */
    method Apply(e: Event)
      modifies this
      ensures CurrentPage() == Step(old(CurrentPage()), e)
      ensures viewState == old(viewState) && webView == old(webView)
    {
      match e
      case PageStarted(url) =>
        loadingState := Initializing;
        pageTitle := None;
        pageIcon := None;
        lastLoadedUrl := Some(url);
      case PageFinished =>
        loadingState := Finished;
        progress := 0;
      case ReceivedTitle(title) =>
        pageTitle := Some(title);
      case ReceivedIcon(icon) =>
        pageIcon := Some(icon);
      case ProgressChanged(newProgress) =>
        if loadingState != Finished {
          loadingState := Loading;
          progress := newProgress;
        }
    }

    /** `WebStateSaver`'s save. */
    method SaveState() returns (m: map<string, Value>)
      ensures m == Save(CurrentPage(), webView)
    {
      var bundle := if webView.Some? then webView.value.saved else Bundle([]);
      m := map[PageTitleKey := OptionalText(pageTitle),
               LastLoadedUrlKey := OptionalText(lastLoadedUrl),
               StateBundleKey := Bundled(bundle)];
    }
  }

  /** `WebStateSaver`'s restore: a fresh state carrying the saved title, url and view state. */
  method RestoreState(m: map<string, Value>) returns (r: Result<WebViewState, RestoreError>)
    ensures RestoreFields(m).Err? <==> r.Err?
    ensures r.Err? ==> r.error == RestoreFields(m).error
    ensures r.Ok? ==> (fresh(r.value)
      && r.value.CurrentPage() == InitialPage.(pageTitle := RestoreFields(m).value.pageTitle,
                                              lastLoadedUrl := RestoreFields(m).value.lastLoadedUrl)
      && r.value.viewState == RestoreFields(m).value.viewState && r.value.webView.None?)
  {
    var fields := RestoreFields(m);
    if fields.Err? {
      return Err(fields.error);
    }
    var state := new WebViewState();
    state.pageTitle := fields.value.pageTitle;
    state.lastLoadedUrl := fields.value.lastLoadedUrl;
    state.viewState := fields.value.viewState;
    return Ok(state);
  }

  /** `AccompanistWebViewClient`: page start and finish, and the visited-history update. */
  class WebViewClient {
    var state: WebViewState
    var navigator: WebViewNavigator

    constructor (state: WebViewState, navigator: WebViewNavigator)
      ensures this.state == state && this.navigator == navigator
    {
      this.state := state;
      this.navigator := navigator;
    }

    /** `onPageStarted`: initializing again, title and icon cleared, the url recorded. */
    method OnPageStarted(view: View, url: string)
      modifies state
      ensures state.CurrentPage() == old(state.CurrentPage()).(loadingState := Initializing,
        pageTitle := None, pageIcon := None, lastLoadedUrl := Some(url))
      ensures state.viewState == old(state.viewState) && state.webView == old(state.webView)
    {
      state.Apply(PageStarted(url));
    }

    /** `onPageFinished`: finished, with progress back to 0. */
    method OnPageFinished(view: View, url: string)
      modifies state
      ensures state.CurrentPage() == old(state.CurrentPage()).(loadingState := Finished, progress := 0)
      ensures state.viewState == old(state.viewState) && state.webView == old(state.webView)
    {
      state.Apply(PageFinished);
    }

    /** `doUpdateVisitedHistory`: the navigator takes over the view's back and forward flags. */
    method DoUpdateVisitedHistory(view: View, url: string, isReload: bool)
      modifies navigator
      ensures navigator.canGoBack == view.canGoBack && navigator.canGoForward == view.canGoForward
    {
      navigator.canGoBack := view.canGoBack;
      navigator.canGoForward := view.canGoForward;
    }
  }

  /** `AccompanistWebChromeClient`: title, icon and progress reports. */
  class WebChromeClient {
    var state: WebViewState

    constructor (state: WebViewState)
      ensures this.state == state
    {
      this.state := state;
    }

    /** `onReceivedTitle`: the title changes and nothing else. */
    method OnReceivedTitle(view: View, title: string)
      modifies state
      ensures state.CurrentPage() == old(state.CurrentPage()).(pageTitle := Some(title))
      ensures state.viewState == old(state.viewState) && state.webView == old(state.webView)
    {
      state.Apply(ReceivedTitle(title));
    }

    /** `onReceivedIcon`: the icon changes and nothing else. */
    method OnReceivedIcon(view: View, icon: Bitmap)
      modifies state
      ensures state.CurrentPage() == old(state.CurrentPage()).(pageIcon := Some(icon))
      ensures state.viewState == old(state.viewState) && state.webView == old(state.webView)
    {
      state.Apply(ReceivedIcon(icon));
    }

    /** `onProgressChanged`: ignored once the page finished; otherwise loading at the reported percent. */
    method OnProgressChanged(view: View, newProgress: int)
      modifies state
      ensures old(state.loadingState) == Finished ==> state.CurrentPage() == old(state.CurrentPage())
      ensures old(state.loadingState) != Finished ==>
        state.CurrentPage() == old(state.CurrentPage()).(loadingState := Loading, progress := newProgress)
      ensures state.viewState == old(state.viewState) && state.webView == old(state.webView)
    {
      state.Apply(ProgressChanged(newProgress));
    }
  }
}
