/**
 * The mutations of `linkRouter` (`apps/app/src/server/api/routers/link.ts`)
 * over an in-memory link table. Each request is one method call; the
 * acting user is a parameter; the database's fresh ids come from a counter;
 * requests to delete a Cloudinary asset are recorded in `destroyRequests`.
 */
module LinkRouter {
  import opened Wrappers
  import opened LinkModel

  /** `LinkService.findPrevious(sectionId)`: a link of the section with the
      highest index, or none when the section has no links. */
  method FindPrevious(links: Table, s: SectionId) returns (prev: Option<LinkId>)
    ensures prev.None? <==> SectionIds(links, s) == {}
    ensures prev.Some? ==> prev.value in links && links[prev.value].sectionId == s
    ensures prev.Some? ==>
      forall q :: q in links && links[q].sectionId == s ==> links[q].index <= links[prev.value].index
  {
    prev := None;
    var rest := links.Keys;
    while rest != {}
      invariant rest <= links.Keys
      invariant prev.None? ==> forall q :: q in links && q !in rest ==> links[q].sectionId != s
      invariant prev.Some? ==> prev.value in links && links[prev.value].sectionId == s
      invariant prev.Some? ==>
        forall q :: q in links && q !in rest && links[q].sectionId == s ==> links[q].index <= links[prev.value].index
      decreases rest
    {
      var x :| x in rest;
      rest := rest - {x};
      if links[x].sectionId == s && (prev.None? || links[prev.value].index < links[x].index) {
        prev := Some(x);
      }
    }
    if prev.None? {
      assert forall q :: q in links ==> links[q].sectionId != s;
    } else {
      assert prev.value in SectionIds(links, s);
    }
  }

  /** Inserts `x` into `order`, kept by ascending index, after every link
      whose index is not above that of `x`. */
  method InsertByIndex(links: Table, order: seq<LinkId>, x: LinkId) returns (r: seq<LinkId>)
    requires x in links && forall i :: 0 <= i < |order| ==> order[i] in links
    requires SortedByIndex(links, order)
    ensures SortedByIndex(links, r)
    ensures |r| == |order| + 1
    ensures exists j :: 0 <= j <= |order| && r == order[..j] + [x] + order[j..]
  {
    var j := 0;
    while j < |order| && links[order[j]].index <= links[x].index
      invariant 0 <= j <= |order|
      invariant forall i :: 0 <= i < j ==> links[order[i]].index <= links[x].index
    {
      j := j + 1;
    }
    InsertKeepsSorted(links, order, j, x);
    r := order[..j] + [x] + order[j..];
  }

  /** `LinkService.findMany(sectionId)`: the ids of the section's links by
      ascending index. */
  method FindMany(links: Table, s: SectionId) returns (order: seq<LinkId>)
    ensures IsSectionOrder(links, s, order)
  {
    order := [];
    var rest := links.Keys;
    while rest != {}
      invariant rest <= links.Keys
      invariant Distinct(order) && SortedByIndex(links, order)
      invariant forall i :: 0 <= i < |order| ==> order[i] in links && order[i] !in rest && links[order[i]].sectionId == s
      invariant forall x :: x in links && x !in rest && links[x].sectionId == s ==> x in order
      decreases rest
    {
      var x :| x in rest;
      rest := rest - {x};
      if links[x].sectionId == s {
        ghost var before := order;
        order := InsertByIndex(links, order, x);
        ghost var j :| 0 <= j <= |before| && order == before[..j] + [x] + before[j..];
        InsertKeepsElements(before, j, x);
      }
    }
  }

  class LinkTable {
    /** The rows of the link table, by id. */
    var links: Table
    /** The id the database hands to the next created link. */
    var nextId: LinkId
    /** Public ids passed to `cloudinary.uploader.destroy`, in order. */
    var destroyRequests: seq<string>

    ghost predicate Valid()
      reads this
    {
      forall x :: x in links ==> x < nextId
    }

    constructor ()
      ensures Valid()
      ensures links == map[] && destroyRequests == []
    {
      links := map[];
      nextId := 0;
      destroyRequests := [];
    }

    /** `add`: a new link owned by the acting user, appended to `sectionId`. */
    method Add(actor: UserId, sectionId: SectionId, text: string, url: string) returns (id: LinkId, link: Link)
      requires Valid()
      modifies this`links, this`nextId
      ensures Valid()
      ensures id !in old(links) && links == old(links)[id := link]
      ensures link.userId == actor && link.sectionId == sectionId
      ensures link.text == text && link.url == url && !link.hidden
      ensures link.thumbnail.None? && link.thumbnailPublicId.None?
      ensures IsAppendIndex(old(links), sectionId, link.index)
    {
      var previous := FindPrevious(links, sectionId);
      var index := if previous.Some? then links[previous.value].index + 1 else 0;
      link := Link(actor, sectionId, index, text, url, false, None, None);
      id := nextId;
      links := links[id := link];
      nextId := nextId + 1;
    }

    /** `delete`: the link is removed, then the remaining links of its section
        are numbered 0, 1, ... in the ascending-index order `order` that
        `findMany` returns. */
    method Delete(actor: UserId, id: LinkId) returns (r: Result<Link, Error>, ghost order: seq<LinkId>)
      requires Valid()
      modifies this`links
      ensures Valid()
      ensures id !in old(links) ==> r == Err(NotFound) && links == old(links)
      ensures id in old(links) && !Authorized(old(links)[id], actor) ==> r == Err(Forbidden) && links == old(links)
      ensures id in old(links) && Authorized(old(links)[id], actor) ==>
        && r == Ok(old(links)[id])
        && IsSectionOrder(old(links) - {id}, old(links)[id].sectionId, order)
        && links == Positioned(old(links) - {id}, order, |order|)
    {
      order := [];
      if id !in links {
        return Err(NotFound), order;
      }
      var link := links[id];
      if !Authorized(link, actor) {
        return Err(Forbidden), order;
      }
      links := links - {id};
      var siblings := FindMany(links, link.sectionId);
      order := siblings;
      ghost var remaining := links;
      var k := 0;
      while k < |siblings|
        invariant 0 <= k <= |siblings|
        invariant links == Positioned(remaining, siblings, k)
      {
        var sibling := siblings[k];
        PositionedStep(remaining, siblings, k);
        links := links[sibling := links[sibling].(index := k)];
        k := k + 1;
      }
      r := Ok(link);
    }

    /** `edit`: the submitted fields replace the stored ones. */
    method Edit(actor: UserId, id: LinkId, edit: LinkEdit) returns (r: Result<Link, Error>)
      requires Valid()
      modifies this`links
      ensures Valid()
      ensures id !in old(links) ==> r == Err(NotFound) && links == old(links)
      ensures id in old(links) && !Authorized(old(links)[id], actor) ==> r == Err(Forbidden) && links == old(links)
      ensures id in old(links) && Authorized(old(links)[id], actor) ==>
        && r == Ok(ApplyEdit(old(links)[id], edit))
        && links == old(links)[id := ApplyEdit(old(links)[id], edit)]
    {
      if id !in links {
        return Err(NotFound);
      }
      if !Authorized(links[id], actor) {
        return Err(Forbidden);
      }
      var updated := ApplyEdit(links[id], edit);
      links := links[id := updated];
      r := Ok(updated);
    }

    /** `reorder`: the ids are taken left to right; each existing link owned
        by the actor gets `index = newOrder.indexOf(id)`. The first missing or
        foreign id ends the request with its error, and the updates made for
        the ids before it stay. */
    method Reorder(actor: UserId, newOrder: seq<LinkId>) returns (r: Result<(), Error>)
      requires Valid()
      modifies this`links
      ensures Valid()
      ensures var k := FirstRejected(old(links), actor, newOrder);
        && links == Positioned(old(links), newOrder, k)
        && r == (if k == |newOrder| then Ok(())
                 else if newOrder[k] !in old(links) then Err(NotFound)
                 else Err(Forbidden))
    {
      var k := 0;
      while k < |newOrder|
        invariant 0 <= k <= |newOrder|
        invariant forall i :: 0 <= i < k ==> newOrder[i] in old(links) && Authorized(old(links)[newOrder[i]], actor)
        invariant links == Positioned(old(links), newOrder, k)
      {
        var id := newOrder[k];
        PositionedKeepsOwner(old(links), newOrder, k, id);
        if id !in links {
          FirstRejectedIs(old(links), actor, newOrder, k);
          return Err(NotFound);
        }
        if !Authorized(links[id], actor) {
          FirstRejectedIs(old(links), actor, newOrder, k);
          return Err(Forbidden);
        }
        var position := IndexOf(newOrder, id);
        PositionedStep(old(links), newOrder, k);
        links := links[id := links[id].(index := position)];
        k := k + 1;
      }
      FirstRejectedIs(old(links), actor, newOrder, k);
      r := Ok(());
    }

    /** `addThumbnail`: asks for the old uploaded asset to be destroyed when
        there is one, then stores the new thumbnail and public id. */
    method AddThumbnail(actor: UserId, id: LinkId, url: string, publicId: Option<string>) returns (r: Result<Link, Error>)
      requires Valid()
      modifies this`links, this`destroyRequests
      ensures Valid()
      ensures id !in old(links) ==> r == Err(NotFound)
      ensures id in old(links) && !Authorized(old(links)[id], actor) ==> r == Err(Forbidden)
      ensures r.Err? ==> links == old(links) && destroyRequests == old(destroyRequests)
      ensures id in old(links) && Authorized(old(links)[id], actor) ==>
        && r == Ok(WithThumbnail(old(links)[id], url, publicId))
        && links == old(links)[id := WithThumbnail(old(links)[id], url, publicId)]
        && destroyRequests == old(destroyRequests) + DestroyRequest(old(links)[id])
    {
      if id !in links {
        return Err(NotFound);
      }
      var link := links[id];
      if !Authorized(link, actor) {
        return Err(Forbidden);
      }
      if Truthy(link.thumbnail) && Truthy(link.thumbnailPublicId) {
        destroyRequests := destroyRequests + [link.thumbnailPublicId.value];
      }
      var updated := WithThumbnail(link, url, publicId);
      links := links[id := updated];
      r := Ok(updated);
    }

    /** `removeThumbnail`: asks for the uploaded asset to be destroyed when
        there is one, then clears both thumbnail columns. */
    method RemoveThumbnail(actor: UserId, id: LinkId) returns (r: Result<Link, Error>)
      requires Valid()
      modifies this`links, this`destroyRequests
      ensures Valid()
      ensures id !in old(links) ==> r == Err(NotFound)
      ensures id in old(links) && !Authorized(old(links)[id], actor) ==> r == Err(Forbidden)
      ensures r.Err? ==> links == old(links) && destroyRequests == old(destroyRequests)
      ensures id in old(links) && Authorized(old(links)[id], actor) ==>
        && r == Ok(WithoutThumbnail(old(links)[id]))
        && links == old(links)[id := WithoutThumbnail(old(links)[id])]
        && destroyRequests == old(destroyRequests) + DestroyRequest(old(links)[id])
    {
      if id !in links {
        return Err(NotFound);
      }
      var link := links[id];
      if !Authorized(link, actor) {
        return Err(Forbidden);
      }
      if Truthy(link.thumbnail) && Truthy(link.thumbnailPublicId) {
        destroyRequests := destroyRequests + [link.thumbnailPublicId.value];
      }
      var updated := WithoutThumbnail(link);
      links := links[id := updated];
      r := Ok(updated);
    }
  }

  /** One `add` by `user` to a contiguous section of any table: the new
      link is the user's, joins the section at index n, the section stays
      contiguous and every other row is as it was. */
  lemma AddStep(before: Table, after: Table, user: UserId, s: SectionId, id: LinkId, link: Link)
    requires Contiguous(before, s)
    requires id !in before && after == before[id := link]
    requires link.userId == user && link.sectionId == s && IsAppendIndex(before, s, link.index)
    ensures Contiguous(after, s) && id in after
    ensures SectionIds(after, s) == SectionIds(before, s) + {id}
    ensures after[id].index == |SectionIds(before, s)| && after[id].userId == user
    ensures forall x :: x in before ==> x in after && after[x] == before[x]
  {
    forall x | x in before
      ensures x in after && after[x] == before[x]
    {
      assert x != id;
    }
    AppendKeepsContiguous(before, s, id, link);
  }

  /** `add` on the table object, with the facts of `AddStep` about its new state. */
  method AddToSection(table: LinkTable, user: UserId, s: SectionId, text: string, url: string)
    returns (id: LinkId)
    requires table.Valid() && Contiguous(table.links, s)
    requires forall x :: x in table.links ==> table.links[x].userId == user
    modifies table
    ensures table.Valid() && Contiguous(table.links, s)
    ensures id !in old(table.links) && id in table.links
    ensures SectionIds(table.links, s) == SectionIds(old(table.links), s) + {id}
    ensures table.links[id].index == |SectionIds(old(table.links), s)|
    ensures forall x :: x in old(table.links) ==> x in table.links && table.links[x] == old(table.links)[x]
    ensures forall x :: x in table.links ==> table.links[x].userId == user
  {
    ghost var before := table.links;
    var link;
    id, link := table.Add(user, s, text, url);
    AddStep(before, table.links, user, s, id, link);
    forall x | x in table.links
      ensures table.links[x].userId == user
    {
      if x != id {
        assert x in before;
      }
    }
  }

  /** Links a and b added to an empty section get indices 0 and 1. */
  method AddTwoLinks(user: UserId, s: SectionId) returns (table: LinkTable, a: LinkId, b: LinkId)
    ensures fresh(table) && table.Valid()
    ensures SectionIds(table.links, s) == {a, b} && a != b
    ensures Contiguous(table.links, s)
    ensures table.links[a].index == 0 && table.links[b].index == 1
    ensures forall x :: x in table.links ==> table.links[x].userId == user
  {
    table := new LinkTable();
    assert SectionIds(table.links, s) == {};
    a := AddToSection(table, user, s, "a", "https://a.example");
    b := AddToSection(table, user, s, "b", "https://b.example");
  }

  /** The first half of the end-to-end example below: links a, b, c are
      added to an empty section and get indices 0, 1, 2. */
  method AddThreeLinks(user: UserId, s: SectionId) returns (table: LinkTable, a: LinkId, b: LinkId, c: LinkId)
    ensures fresh(table) && table.Valid()
    ensures SectionIds(table.links, s) == {a, b, c} && a != b && b != c && a != c
    ensures Contiguous(table.links, s)
    ensures table.links[a].index == 0 && table.links[b].index == 1 && table.links[c].index == 2
    ensures forall x :: x in table.links ==> table.links[x].userId == user
  {
    table, a, b := AddTwoLinks(user, s);
    c := AddToSection(table, user, s, "c", "https://c.example");
  }

  /** Deleting b from the section {a: 0, b: 1, c: 2} leaves a at 0 and c at 1. */
  lemma DeleteMiddleIndices(t3: Table, s: SectionId, a: LinkId, b: LinkId, c: LinkId, order: seq<LinkId>)
    requires SectionIds(t3, s) == {a, b, c} && a != b && b != c && a != c
    requires Contiguous(t3, s)
    requires t3[a].index == 0 && t3[b].index == 1 && t3[c].index == 2
    requires IsSectionOrder(t3 - {b}, s, order)
    ensures a in t3 - {b} && c in t3 - {b}
    ensures Positioned(t3 - {b}, order, |order|)[a].index == 0
    ensures Positioned(t3 - {b}, order, |order|)[c].index == 1
  {
    assert a in SectionIds(t3, s) && b in SectionIds(t3, s) && c in SectionIds(t3, s);
    DeleteShiftsLaterLinks(t3, b, order);
  }

  /** What remains of the section {a, b, c} after deleting b is {a, c}, contiguous, with owners unchanged. */
  lemma DeleteMiddleSection(t3: Table, user: UserId, s: SectionId, a: LinkId, b: LinkId, c: LinkId, order: seq<LinkId>)
    requires SectionIds(t3, s) == {a, b, c} && a != b && b != c && a != c
    requires forall x :: x in t3 ==> t3[x].userId == user
    requires IsSectionOrder(t3 - {b}, s, order)
    ensures var r := Positioned(t3 - {b}, order, |order|);
      && SectionIds(r, s) == {a, c} && Contiguous(r, s)
      && forall x :: x in r ==> r[x].userId == user
  {
    assert b in SectionIds(t3, s);
    DeleteKeepsContiguous(t3, b, order);
    assert SectionIds(t3, s) - {b} == {a, c};
  }

  /** Deleting b leaves a at 0 and moves c to 1. */
  method DeleteMiddle(table: LinkTable, user: UserId, s: SectionId, a: LinkId, b: LinkId, c: LinkId)
    requires table.Valid()
    requires SectionIds(table.links, s) == {a, b, c} && a != b && b != c && a != c
    requires Contiguous(table.links, s)
    requires table.links[a].index == 0 && table.links[b].index == 1 && table.links[c].index == 2
    requires forall x :: x in table.links ==> table.links[x].userId == user
    modifies table
    ensures table.Valid()
    ensures SectionIds(table.links, s) == {a, c} && Contiguous(table.links, s)
    ensures table.links[a].index == 0 && table.links[c].index == 1
    ensures forall x :: x in table.links ==> table.links[x].userId == user
  {
    ghost var t3 := table.links;
    assert a in SectionIds(t3, s) && b in SectionIds(t3, s) && c in SectionIds(t3, s);
    var deleted, order := table.Delete(user, b);
    DeleteMiddleIndices(t3, s, a, b, c, order);
    DeleteMiddleSection(t3, user, s, a, b, c, order);
  }

  /** Appending d to the section {a: 0, c: 1} gives it index 2. */
  method AppendToTwo(table: LinkTable, user: UserId, s: SectionId, a: LinkId, c: LinkId)
    returns (d: LinkId)
    requires table.Valid()
    requires SectionIds(table.links, s) == {a, c} && a != c && Contiguous(table.links, s)
    requires table.links[a].index == 0 && table.links[c].index == 1
    requires forall x :: x in table.links ==> table.links[x].userId == user
    modifies table
    ensures table.Valid()
    ensures d != a && d != c && a in table.links && c in table.links && d in table.links
    ensures table.links[a].index == 0 && table.links[c].index == 1 && table.links[d].index == 2
    ensures forall x :: x in table.links ==> table.links[x].userId == user
  {
    d := AddToSection(table, user, s, "d", "https://d.example");
  }

  /** An end-to-end run on one section: a, b, c are added
      (0, 1, 2), b is deleted (a 0, c 1), d is added (2), and the order
      c, d, a is submitted (c 0, d 1, a 2). */
  method EndToEndScenario(user: UserId, s: SectionId) returns (table: LinkTable, a: LinkId, c: LinkId, d: LinkId)
    ensures fresh(table)
    ensures a in table.links && c in table.links && d in table.links
    ensures table.links[c].index == 0 && table.links[d].index == 1 && table.links[a].index == 2
  {
    var b;
    table, a, b, c := AddThreeLinks(user, s);
    DeleteMiddle(table, user, s, a, b, c);
    d := AppendToTwo(table, user, s, a, c);
    ghost var t5 := table.links;
    var newOrder := [c, d, a];
    FirstRejectedIs(t5, user, newOrder, 3);
    var reordered := table.Reorder(user, newOrder);
    assert reordered == Ok(());
    assert newOrder[..3] == newOrder;
    assert IndexOf(newOrder, c) == 0 && IndexOf(newOrder, d) == 1 && IndexOf(newOrder, a) == 2;
  }
}
