// The page that the script works on, and the two handlers that change it:
// `loadFragment` (inject a fetched fragment or the inline fallback) and the
// mobile-menu click handler (toggle the `hidden` class).
module Script {
  import opened Paths
  import opened Candidates
  import opened Fetch
  import opened Urls

  /** An element found by id: its markup and its class list. */
  datatype Element = Element(innerHTML: string, classList: set<string>)

  /** Element ids by which the page is queried; an absent id is `null`. */
  type Elements = map<string, Element>

  const HeaderId: string := "site-header"
  const FooterId: string := "site-footer"
  const MenuId: string := "mobile-menu"
  const Hidden: string := "hidden"

  // The inline fallback markup, kept as opaque constants.
  const HeaderFallback: string := "<header><!-- inline header fallback --></header>"
  const FooterFallback: string := "<footer><!-- inline footer fallback --></footer>"

  /** The fallback fragment defined for a container id, if any. */
  function FallbackFor(id: string): (fallback: Option<string>)
    ensures fallback.Some? <==> id == HeaderId || id == FooterId
    ensures id == HeaderId ==> fallback == Some(HeaderFallback)
    ensures id == FooterId ==> fallback == Some(FooterFallback)
  {
    if id == HeaderId then Some(HeaderFallback)
    else if id == FooterId then Some(FooterFallback)
    else None
  }

  /** `container.innerHTML = html` when the container exists. */
  function Inject(elements: Elements, id: string, html: string): (after: Elements)
    ensures after.Keys == elements.Keys
    ensures id in elements ==> after[id] == elements[id].(innerHTML := html)
    ensures forall other :: other in elements && other != id ==> after[other] == elements[other]
  {
    if id in elements then elements[id := elements[id].(innerHTML := html)] else elements
  }

  /**
   * The elements after `loadFragment(id, ...)` once the probes are done:
   * `found` is the first truthy body, None when every candidate failed.
   */
  function AfterLoad(elements: Elements, found: Option<string>, id: string): (after: Elements)
    ensures after.Keys == elements.Keys
    ensures forall other :: other in elements && other != id ==> after[other] == elements[other]
    ensures id in elements ==> after[id].classList == elements[id].classList
    ensures found.Some? && id in elements ==> after[id].innerHTML == found.value
    ensures found.None? && id in elements && id == HeaderId ==> after[id].innerHTML == HeaderFallback
    ensures found.None? && id in elements && id == FooterId ==> after[id].innerHTML == FooterFallback
    ensures found.None? && id != HeaderId && id != FooterId ==> after == elements
    ensures id !in elements ==> after == elements
  {
    match found
    case Some(html) => Inject(elements, id, html)
    case None =>
      match FallbackFor(id)
      case Some(fallback) => Inject(elements, id, fallback)
      case None => elements
  }

  /**
   * Loads of two different containers touch disjoint elements, so the order
   * in which the header and footer loads finish does not matter.
   */
  lemma LoadsCommute(elements: Elements, found1: Option<string>, id1: string,
                     found2: Option<string>, id2: string)
    requires id1 != id2
    ensures AfterLoad(AfterLoad(elements, found1, id1), found2, id2)
         == AfterLoad(AfterLoad(elements, found2, id2), found1, id1)
  {
    var a := AfterLoad(AfterLoad(elements, found1, id1), found2, id2);
    var b := AfterLoad(AfterLoad(elements, found2, id2), found1, id1);
    assert a.Keys == b.Keys;
    forall other | other in a ensures a[other] == b[other] {
      if other == id1 {
      } else if other == id2 {
      }
    }
  }

  /**
   * The network as the loader sees it from a page at `pathname`: each
   * candidate string is answered by the reply to the path it resolves to.
   */
  function Requested(net: Network, pathname: string): Network
  {
    url => net(Resolve(pathname, url))
  }

  /**
   * The "./" candidates (second and fourth) ask for the same path as the
   * candidate before them, so for a network that answers a path the same
   * way every time they are never the first hit.
   */
  lemma DotCandidatesNeverFirst(net: Network, pathname: string, name: string, k: int)
    requires FirstHitAt(Requested(net, pathname), CandidatesFor(GetBasePath(pathname), name), k)
    ensures k != 1 && k != 3
  {
    CandidateRequests(pathname, name);
  }

  /**
   * Scenario: the document-relative and the deployment-root requests for the
   * header answer 404, the site-root request answers 200 with "<h1>Hi</h1>";
   * that body is what the header holds.
   */
  lemma HeaderScenario(net: Network, pathname: string, name: string, elements: Elements)
    requires net(Resolve(pathname, ComponentsDir + name)) == Response(404, "")
    requires net(Resolve(pathname, GetBasePath(pathname) + ComponentsDir + name)) == Response(404, "")
    requires net(Resolve(pathname, "/" + ComponentsDir + name)) == Response(200, "<h1>Hi</h1>")
    requires HeaderId in elements
    ensures var found := FirstBody(Requested(net, pathname), CandidatesFor(GetBasePath(pathname), name));
      found == Some("<h1>Hi</h1>") &&
      AfterLoad(elements, found, HeaderId)[HeaderId].innerHTML == "<h1>Hi</h1>"
  {
    var seen := Requested(net, pathname);
    var cands := CandidatesFor(GetBasePath(pathname), name);
    CandidateRequests(pathname, name);
    assert FirstHitAt(seen, cands, 4);
    FirstBodyAt(seen, cands, 4);
  }

  /**
   * Scenario: every request for the footer answers 404; the footer then
   * holds exactly the footer fallback.
   */
  lemma FooterScenario(net: Network, pathname: string, name: string, elements: Elements)
    requires forall url :: net(url) == Response(404, "")
    requires FooterId in elements
    ensures var found := FirstBody(Requested(net, pathname), CandidatesFor(GetBasePath(pathname), name));
      found == None &&
      AfterLoad(elements, found, FooterId)[FooterId].innerHTML == FooterFallback
  {
    var seen := Requested(net, pathname);
    var cands := CandidatesFor(GetBasePath(pathname), name);
    forall j | 0 <= j < |cands| ensures !Truthy(TryFetch(seen, cands[j])) {
      assert seen(cands[j]) == net(Resolve(pathname, cands[j]));
    }
    FirstBodyNoneIff(seen, cands);
  }

  /** `classList.toggle(token)` on a class set. */
  function Toggled(classes: set<string>, token: string): (after: set<string>)
    ensures token in after <==> token !in classes
    ensures forall c :: c != token ==> (c in after <==> c in classes)
  {
    if token in classes then classes - {token} else classes + {token}
  }

  /** Toggling twice restores the class set. */
  lemma ToggleInvolution(classes: set<string>, token: string)
    ensures Toggled(Toggled(classes, token), token) == classes
  {
  }

  /** The class set after n toggles. */
  function ToggledTimes(classes: set<string>, token: string, n: nat): set<string>
  {
    if n == 0 then classes else Toggled(ToggledTimes(classes, token, n - 1), token)
  }

  /**
   * Parity: an even number of toggles leaves the class set as it was, an odd
   * number leaves it toggled once.
   */
  lemma {:induction false} ToggleParity(classes: set<string>, token: string, n: nat)
    ensures ToggledTimes(classes, token, n) ==
      if n % 2 == 0 then classes else Toggled(classes, token)
    ensures token in ToggledTimes(classes, token, n) <==> (token in classes) != (n % 2 == 1)
  {
    if n > 0 {
      ToggleParity(classes, token, n - 1);
      if n % 2 == 0 {
        ToggleInvolution(classes, token);
      }
    }
  }

  /** The page state the script's handlers share. */
  class Page {
    /** The document's pathname, against which relative URLs resolve. */
    const pathname: string
    /** The deployment root, computed once when the script starts. */
    const repoBase: string
    var elements: Elements

    constructor (pathname: string, elements: Elements)
      ensures this.pathname == pathname
      ensures repoBase == GetBasePath(pathname)
      ensures this.elements == elements
    {
      this.pathname := pathname;
      repoBase := GetBasePath(pathname);
      this.elements := elements;
    }

    /**
     * `loadFragment(id, name)`: probes the candidates for `name` in order and
     * injects the first truthy body, else the container's fallback.
     * `net` answers request paths; each candidate is requested at the path
     * it resolves to from this page. `attempts` lists the URLs handed to
     * `fetch`, in order.
     */
    method LoadFragment(net: Network, id: string, name: string) returns (loaded: bool, attempts: seq<string>)
      modifies this
      ensures loaded == FirstBody(Requested(net, pathname), CandidatesFor(repoBase, name)).Some?
      ensures elements == AfterLoad(old(elements), FirstBody(Requested(net, pathname), CandidatesFor(repoBase, name)), id)
      ensures attempts <= CandidatesFor(repoBase, name)
      ensures loaded ==> FirstHitAt(Requested(net, pathname), CandidatesFor(repoBase, name), |attempts| - 1)
      ensures !loaded ==> attempts == CandidatesFor(repoBase, name)
    {
      loaded, attempts := LoadFrom(Requested(net, pathname), id, CandidatesFor(repoBase, name));
    }

    /** The probing loop of `loadFragment`, over a given candidate list. */
    method LoadFrom(net: Network, id: string, cands: seq<string>) returns (loaded: bool, attempts: seq<string>)
      modifies this
      ensures loaded == FirstBody(net, cands).Some?
      ensures elements == AfterLoad(old(elements), FirstBody(net, cands), id)
      ensures attempts <= cands
      ensures loaded ==> FirstHitAt(net, cands, |attempts| - 1)
      ensures !loaded ==> attempts == cands
    {
      attempts := [];
      for i := 0 to |cands|
        invariant attempts == cands[..i]
        invariant forall j :: 0 <= j < i ==> !Truthy(TryFetch(net, cands[j]))
        invariant elements == old(elements)
      {
        var p := cands[i];
        attempts := attempts + [p];
        var html := TryFetch(net, p);
        if Truthy(html) {
          assert FirstHitAt(net, cands, i);
          FirstBodyAt(net, cands, i);
          elements := Inject(elements, id, html.value);
          return true, attempts;
        }
      }
      FirstBodyNoneIff(net, cands);
      assert attempts == cands;
      if id == HeaderId {
        elements := Inject(elements, id, HeaderFallback);
      } else if id == FooterId {
        elements := Inject(elements, id, FooterFallback);
      }
      return false, attempts;
    }

    /**
     * The click handler for the mobile menu: when the click is inside the
     * toggle control and the menu exists, flip its `hidden` class.
     */
    method MenuClick(onToggle: bool)
      modifies this
      ensures onToggle && MenuId in old(elements) ==>
        elements == old(elements)[MenuId := old(elements)[MenuId].(classList := Toggled(old(elements)[MenuId].classList, Hidden))]
      ensures !(onToggle && MenuId in old(elements)) ==> elements == old(elements)
    {
      if onToggle && MenuId in elements {
        var menu := elements[MenuId];
        elements := elements[MenuId := menu.(classList := Toggled(menu.classList, Hidden))];
      }
    }
  }
}
