/**
 Hypermedia links of a HAL resource and the "self"-link insertion that
 runs before every serialization (`Representation.RepopulateHyperMedia`).
 */
module Links {
  import opened Wrappers

  /** A `_links` entry: relation name and address, both nullable .NET strings. */
  datatype Link = Link(rel: NString, href: NString)

  const SelfRel: NString := Some("self")

  predicate IsSelf(l: Link) {
    l.rel == SelfRel
  }

  /** `links.Count(l => l.Rel == "self")`. */
  function SelfCount(links: seq<Link>): (n: nat)
    ensures n <= |links|
    ensures n == 0 <==> forall i :: 0 <= i < |links| ==> !IsSelf(links[i])
  {
    if links == [] then 0
    else SelfCount(links[..|links| - 1]) + (if IsSelf(links[|links| - 1]) then 1 else 0)
  }

  predicate HasSelf(links: seq<Link>) {
    exists i :: 0 <= i < |links| && IsSelf(links[i])
  }

  /**
   The link list after `CreateHypermedia` has produced `created`: a
   `{self, href}` link is put in front when no entry is a self link;
   otherwise the list is kept exactly as it is.
   */
  function EnsureSelf(created: seq<Link>, href: NString): (links: seq<Link>)
    ensures HasSelf(links)
    ensures !HasSelf(created) ==> links == [Link(SelfRel, href)] + created
    ensures HasSelf(created) ==> links == created
    ensures |created| <= |links| <= |created| + 1
  {
    if SelfCount(created) == 0 then
      var links := [Link(SelfRel, href)] + created;
      assert IsSelf(links[0]);
      links
    else
      created
  }

  /** `RepopulateHyperMedia`, with the subclass hook `CreateHypermedia` as a parameter. */
  function Repopulate(createHypermedia: seq<Link> -> seq<Link>, links: seq<Link>, href: NString): seq<Link>
  {
    EnsureSelf(createHypermedia(links), href)
  }

  /** The self link is inserted exactly when none was there, and then it is the only one. */
  lemma SelfCountAfterRepopulate(createHypermedia: seq<Link> -> seq<Link>, links: seq<Link>, href: NString)
    ensures var created := createHypermedia(links);
            SelfCount(Repopulate(createHypermedia, links, href))
              == (if SelfCount(created) == 0 then 1 else SelfCount(created))
  {
    var created := createHypermedia(links);
    if SelfCount(created) == 0 {
      SelfCountPrepend(Link(SelfRel, href), created);
    }
  }

  lemma {:induction false} SelfCountPrepend(l: Link, links: seq<Link>)
    ensures SelfCount([l] + links) == (if IsSelf(l) then 1 else 0) + SelfCount(links)
    decreases |links|
  {
    if links != [] {
      var init := links[..|links| - 1];
      SelfCountPrepend(l, init);
      assert ([l] + links)[..|links|] == [l] + init;
    } else {
      assert ([l] + links)[..0] == [];
    }
  }

  /** Once the hook returns the links it is given, a second repopulation changes nothing. */
  lemma RepopulateStable(createHypermedia: seq<Link> -> seq<Link>, links: seq<Link>, href: NString)
    requires var once := Repopulate(createHypermedia, links, href);
             createHypermedia(once) == once
    ensures var once := Repopulate(createHypermedia, links, href);
            Repopulate(createHypermedia, once, href) == once
  {
  }

  /** With a hook that does not touch the links, repopulating is idempotent. */
  lemma RepopulateIdempotentForIdentity(links: seq<Link>, href: NString)
    ensures var id := (ls: seq<Link>) => ls;
            Repopulate(id, Repopulate(id, links, href), href) == Repopulate(id, links, href)
  {
  }

  /** Nothing removes duplicate self links that the hook itself produced. */
  lemma DuplicateSelfLinksKept(href: NString)
    ensures var two := [Link(SelfRel, Some("/a")), Link(SelfRel, Some("/b"))];
            SelfCount(Repopulate((ls: seq<Link>) => two, [], href)) == 2
  {
    var two := [Link(SelfRel, Some("/a")), Link(SelfRel, Some("/b"))];
    assert two[..1] == [two[0]];
    assert IsSelf(two[0]);
  }

  /** A hook that appends to the existing list grows it on every serialization. */
  lemma AppendingHookGrows(extra: Link, links: seq<Link>, href: NString)
    ensures var append := (ls: seq<Link>) => ls + [extra];
            |Repopulate(append, links, href)| > |links|
  {
  }
}
