/**
 * The link table of `apps/app/src/server/api/routers/link.ts` as a value:
 * one record per link, and the functions that say what an ordering of a
 * section's links is, what `reorder` and the renumbering inside `delete`
 * write, and when a section's `index` column is contiguous (0..n-1).
 */
module LinkModel {
  import opened Wrappers

  type LinkId = nat
  type UserId = string
  type SectionId = string

  /** One row of the link table. */
  datatype Link = Link(
    userId: UserId,
    sectionId: SectionId,
    index: int,
    text: string,
    url: string,
    hidden: bool,
    thumbnail: Option<string>,
    thumbnailPublicId: Option<string>)

  /** The two ways a link request is refused: `NOT_FOUND`, and `authorizeAuthor`'s ownership check. */
  datatype Error = NotFound | Forbidden

  type Table = map<LinkId, Link>

  /** JavaScript truthiness of a nullable text column: `null` and `""` are falsy. */
  predicate Truthy(s: Option<string>)
  {
    s.Some? && s.value != ""
  }

  /** `authorizeAuthor(owner, actor)` lets the request through only for the owner. */
  predicate Authorized(link: Link, actor: UserId)
  {
    link.userId == actor
  }

  // ---------------------------------------------------------------------------
  // Sections and contiguity
  // ---------------------------------------------------------------------------

  function SectionIds(links: Table, s: SectionId): set<LinkId>
  {
    set x | x in links && links[x].sectionId == s
  }

  function IndicesOf(links: Table, ids: set<LinkId>): set<int>
    requires ids <= links.Keys
  {
    set x | x in ids :: links[x].index
  }

  /** The set {0, ..., n-1}. */
  function Range(n: nat): (r: set<int>)
    ensures forall i :: i in r <==> 0 <= i < n
  {
    if n == 0 then {} else Range(n - 1) + {n - 1}
  }

  /** The indices of section `s` lie in 0..n-1 and no two of its links share one. */
  ghost predicate Contiguous(links: Table, s: SectionId)
  {
    && (forall x :: x in links && links[x].sectionId == s ==> 0 <= links[x].index < |SectionIds(links, s)|)
    && (forall x, y ::
          x in links && y in links && links[x].sectionId == s && links[y].sectionId == s && x != y
          ==> links[x].index != links[y].index)
  }

  lemma {:induction false} RangeCard(n: nat)
    ensures |Range(n)| == n
  {
    if n > 0 {
      RangeCard(n - 1);
      assert n - 1 !in Range(n - 1);
    }
  }

  /** Distinct links with distinct indices have as many indices as links. */
  lemma {:induction false} InjectiveIndicesCard(links: Table, ids: set<LinkId>)
    requires ids <= links.Keys
    requires forall x, y :: x in ids && y in ids && x != y ==> links[x].index != links[y].index
    ensures |IndicesOf(links, ids)| == |ids|
    decreases ids
  {
    if ids != {} {
      var z :| z in ids;
      var rest := ids - {z};
      InjectiveIndicesCard(links, rest);
      assert IndicesOf(links, ids) == IndicesOf(links, rest) + {links[z].index};
      assert links[z].index !in IndicesOf(links, rest);
    }
  }

  /** Contiguity read as a set: the indices of a
      contiguous section are exactly {0, ..., n-1}. */
  lemma ContiguousIndicesAreRange(links: Table, s: SectionId)
    requires Contiguous(links, s)
    ensures IndicesOf(links, SectionIds(links, s)) == Range(|SectionIds(links, s)|)
  {
    var ids := SectionIds(links, s);
    var n := |ids|;
    var image := IndicesOf(links, ids);
    assert image <= Range(n);
    InjectiveIndicesCard(links, ids);
    RangeCard(n);
    assert |Range(n) - image| == |Range(n)| - |image|;
    assert Range(n) - image == {};
  }

  // ---------------------------------------------------------------------------
  // Orders of a section's links
  // ---------------------------------------------------------------------------

  ghost predicate Distinct(order: seq<LinkId>)
  {
    forall i, j :: 0 <= i < j < |order| ==> order[i] != order[j]
  }

  function Elems(order: seq<LinkId>): set<LinkId>
  {
    set x | x in order
  }

  lemma {:induction false} DistinctCard(order: seq<LinkId>)
    requires Distinct(order)
    ensures |Elems(order)| == |order|
  {
    if order != [] {
      DistinctCard(order[1..]);
      assert Elems(order) == Elems(order[1..]) + {order[0]};
    }
  }

  /** `order` lists every link of section `s`, each exactly once. */
  ghost predicate ListsSection(links: Table, s: SectionId, order: seq<LinkId>)
  {
    && Distinct(order)
    && (forall i :: 0 <= i < |order| ==> order[i] in links && links[order[i]].sectionId == s)
    && (forall x :: x in links && links[x].sectionId == s ==> x in order)
  }

  /** Every id of `order` is in the table, and their indices never decrease along it. */
  ghost predicate SortedByIndex(links: Table, order: seq<LinkId>)
  {
    && (forall i :: 0 <= i < |order| ==> order[i] in links)
    && (forall i, j :: 0 <= i < j < |order| ==> links[order[i]].index <= links[order[j]].index)
  }

  /** Along a sorted order, a lower index comes strictly earlier. */
  lemma SortedPositions(links: Table, order: seq<LinkId>, i: nat, j: nat)
    requires SortedByIndex(links, order) && i < |order| && j < |order|
    requires links[order[i]].index < links[order[j]].index
    ensures i < j
  {
  }

  /** What `LinkService.findMany(sectionId)` returns: the section's links by ascending index. */
  ghost predicate IsSectionOrder(links: Table, s: SectionId, order: seq<LinkId>)
  {
    ListsSection(links, s, order) && SortedByIndex(links, order)
  }

  /** Inserting `x` after the links whose index is not above its own and
      before the first one above it keeps the order sorted. */
  lemma InsertKeepsSorted(links: Table, order: seq<LinkId>, j: nat, x: LinkId)
    requires x in links && SortedByIndex(links, order) && j <= |order|
    requires forall i :: 0 <= i < j ==> links[order[i]].index <= links[x].index
    requires j < |order| ==> links[x].index < links[order[j]].index
    ensures SortedByIndex(links, order[..j] + [x] + order[j..])
  {
    var r := order[..j] + [x] + order[j..];
    assert forall i :: 0 <= i < |r| ==> r[i] == if i < j then order[i] else if i == j then x else order[i - 1];
    forall a, b | 0 <= a < b < |r|
      ensures links[r[a]].index <= links[r[b]].index
    {
      if a < j && b > j {
        assert links[order[a]].index <= links[order[j]].index <= links[order[b - 1]].index;
      } else if a == j {
        assert links[order[j]].index <= links[order[b - 1]].index;
      }
    }
  }

  /** Inserting an id that is not yet listed keeps the list duplicate-free
      and adds exactly that id. */
  lemma InsertKeepsElements(order: seq<LinkId>, j: nat, x: LinkId)
    requires j <= |order| && Distinct(order) && x !in order
    ensures Distinct(order[..j] + [x] + order[j..])
    ensures forall y :: y in order[..j] + [x] + order[j..] <==> y in order || y == x
  {
    var r := order[..j] + [x] + order[j..];
    assert forall i :: 0 <= i < |r| ==> r[i] == if i < j then order[i] else if i == j then x else order[i - 1];
    forall y | y in order
      ensures y in r
    {
      var i :| 0 <= i < |order| && order[i] == y;
      if i < j { assert r[i] == y; } else { assert r[i + 1] == y; }
    }
  }

  lemma ListedSectionSize(links: Table, s: SectionId, order: seq<LinkId>)
    requires ListsSection(links, s, order)
    ensures |SectionIds(links, s)| == |order|
  {
    assert SectionIds(links, s) == Elems(order);
    DistinctCard(order);
  }

  /** `Array.prototype.indexOf`: the first position of `x` in `order`. */
  function IndexOf(order: seq<LinkId>, x: LinkId): (r: nat)
    requires x in order
    ensures r < |order| && order[r] == x
    ensures forall j :: 0 <= j < r ==> order[j] != x
  {
    if order[0] == x then 0 else 1 + IndexOf(order[1..], x)
  }

  /** `x` occurs among the first `n` ids of `order`. */
  predicate ListedBefore(order: seq<LinkId>, n: nat, x: LinkId)
    requires n <= |order|
    ensures ListedBefore(order, n, x) <==> x in order[..n]
  {
    if n == 0 then false else order[n - 1] == x || ListedBefore(order, n - 1, x)
  }

  /** The table after each id of `order[..n]` has been given
      `index = order.indexOf(id)`; every other row is as it was. */
  function Positioned(links: Table, order: seq<LinkId>, n: nat): (r: Table)
    requires n <= |order|
    ensures r.Keys == links.Keys
  {
    map x | x in links :: if ListedBefore(order, n, x) then links[x].(index := IndexOf(order, x)) else links[x]
  }

  /** Positioning writes only `index`: every other column of every row stays. */
  lemma PositionedKeepsFields(links: Table, order: seq<LinkId>, n: nat)
    requires n <= |order|
    ensures forall x :: x in links ==> Positioned(links, order, n)[x].(index := links[x].index) == links[x]
  {
  }

  /** Positioning keeps each row's owner. */
  lemma PositionedKeepsOwner(links: Table, order: seq<LinkId>, n: nat, x: LinkId)
    requires n <= |order|
    ensures x in Positioned(links, order, n) <==> x in links
    ensures x in links ==> Positioned(links, order, n)[x].userId == links[x].userId
  {
  }

  /** Positioning one more id is one more single-row update. */
  lemma PositionedStep(links: Table, order: seq<LinkId>, k: nat)
    requires k < |order| && order[k] in links
    ensures var before := Positioned(links, order, k);
      Positioned(links, order, k + 1) == before[order[k] := before[order[k]].(index := IndexOf(order, order[k]))]
  {
    var a := Positioned(links, order, k + 1);
    var y := order[k];
    var before := Positioned(links, order, k);
    var b := before[y := before[y].(index := IndexOf(order, y))];
    forall x | x in links
      ensures a[x] == b[x]
    {
    }
    assert a.Keys == b.Keys;
  }

  /** A listed id ends at its first position in the list; an unlisted one is untouched. */
  lemma PositionedAt(links: Table, order: seq<LinkId>, n: nat, x: LinkId)
    requires n <= |order| && x in links
    ensures x in order[..n] ==> Positioned(links, order, n)[x].index == IndexOf(order, x)
    ensures x !in order[..n] ==> Positioned(links, order, n)[x] == links[x]
  {
  }

  /** Numbering a section by a list that names each of its links once makes
      it contiguous. This is both the renumbering after `delete` and a
      `reorder` that submits a permutation of the section. */
  lemma ListingMakesContiguous(links: Table, s: SectionId, order: seq<LinkId>)
    requires ListsSection(links, s, order)
    ensures Contiguous(Positioned(links, order, |order|), s)
  {
    var r := Positioned(links, order, |order|);
    assert order[..|order|] == order;
    assert SectionIds(r, s) == SectionIds(links, s);
    ListedSectionSize(links, s, order);
    forall x | x in r && r[x].sectionId == s
      ensures 0 <= r[x].index < |SectionIds(r, s)|
    {
      assert x in order;
    }
    forall x, y | x in r && y in r && r[x].sectionId == s && r[y].sectionId == s && x != y
      ensures r[x].index != r[y].index
    {
      assert x in order && y in order;
    }
  }

  /** Renumbering by the ascending-index order keeps the links' relative order. */
  lemma SectionOrderKeepsRelativeOrder(links: Table, s: SectionId, order: seq<LinkId>, x: LinkId, y: LinkId)
    requires IsSectionOrder(links, s, order)
    requires x in links && links[x].sectionId == s
    requires y in links && links[y].sectionId == s
    requires links[x].index < links[y].index
    ensures Positioned(links, order, |order|)[x].index < Positioned(links, order, |order|)[y].index
  {
    assert x in order && y in order;
    var i, j := IndexOf(order, x), IndexOf(order, y);
    PositionedAt(links, order, |order|, x);
    PositionedAt(links, order, |order|, y);
    assert order[..|order|] == order;
    SortedPositions(links, order, i, j);
  }

  /** Renumbering one section leaves every other section's rows as they were. */
  lemma ListingLeavesOtherSections(links: Table, s: SectionId, order: seq<LinkId>, x: LinkId)
    requires ListsSection(links, s, order)
    requires x in links && links[x].sectionId != s
    ensures Positioned(links, order, |order|)[x] == links[x]
  {
    assert order[..|order|] == order;
    assert forall i :: 0 <= i < |order| ==> order[i] != x;
  }

  /** A strictly increasing list of n numbers in 0..n-1 is 0, 1, ..., n-1. */
  lemma {:induction false} StrictlyIncreasingInRange(a: seq<int>)
    requires forall i, j :: 0 <= i < j < |a| ==> a[i] < a[j]
    requires forall i :: 0 <= i < |a| ==> 0 <= a[i] < |a|
    ensures forall i :: 0 <= i < |a| ==> a[i] == i
  {
    if a != [] {
      var n := |a|;
      var front := a[..n - 1];
      forall i | 0 <= i < n - 1
        ensures 0 <= front[i] < n - 1
      {
        assert a[i] < a[n - 1];
      }
      StrictlyIncreasingInRange(front);
      if n > 1 {
        assert a[n - 2] == front[n - 2] == n - 2;
        assert a[n - 2] < a[n - 1];
      }
    }
  }

  /** In a contiguous section, the ascending-index order puts the link with
      index i at position i. */
  lemma ContiguousOrderIsPositional(links: Table, s: SectionId, order: seq<LinkId>)
    requires Contiguous(links, s) && IsSectionOrder(links, s, order)
    ensures forall i :: 0 <= i < |order| ==> links[order[i]].index == i
  {
    ListedSectionSize(links, s, order);
    var a := seq(|order|, i requires 0 <= i < |order| => links[order[i]].index);
    forall i | 0 <= i < |a|
      ensures 0 <= a[i] < |a|
    {
      assert order[i] in links && links[order[i]].sectionId == s;
    }
    forall i, j | 0 <= i < j < |a|
      ensures a[i] < a[j]
    {
      assert order[i] != order[j];
    }
    StrictlyIncreasingInRange(a);
    assert forall i :: 0 <= i < |order| ==> a[i] == links[order[i]].index;
  }

  /** Deleting the link at position k of a contiguous section and renumbering
      by the ascending-index order moves every later link down by one and
      leaves every earlier link where it was. */
  lemma DeleteShiftsLaterLinks(links: Table, id: LinkId, order: seq<LinkId>)
    requires id in links && Contiguous(links, links[id].sectionId)
    requires IsSectionOrder(links - {id}, links[id].sectionId, order)
    ensures forall x :: x in links && x != id && links[x].sectionId == links[id].sectionId ==>
      Positioned(links - {id}, order, |order|)[x].index
        == if links[x].index < links[id].index then links[x].index else links[x].index - 1
  {
    var s, k := links[id].sectionId, links[id].index;
    var rest := links - {id};
    var n := |SectionIds(links, s)|;
    ListedSectionSize(rest, s, order);
    assert SectionIds(rest, s) == SectionIds(links, s) - {id};
    assert |order| == n - 1;
    // The old indices along `order`, with the gap at k closed.
    var b := seq(|order|, i requires 0 <= i < |order| =>
      if links[order[i]].index < k then links[order[i]].index else links[order[i]].index - 1);
    forall i | 0 <= i < |b|
      ensures 0 <= b[i] < |b|
    {
      assert order[i] in links && links[order[i]].sectionId == s && order[i] != id;
    }
    forall i, j | 0 <= i < j < |b|
      ensures b[i] < b[j]
    {
      assert order[i] != order[j] && order[i] != id && order[j] != id;
      assert links[order[i]].index < links[order[j]].index;
    }
    StrictlyIncreasingInRange(b);
    assert order[..|order|] == order;
    forall x | x in links && x != id && links[x].sectionId == s
      ensures Positioned(rest, order, |order|)[x].index == if links[x].index < k then links[x].index else links[x].index - 1
    {
      assert x in rest;
      var i := IndexOf(order, x);
      assert b[i] == i;
    }
  }

  /** `delete` keeps the section contiguous: the section loses exactly the deleted
      link, stays contiguous, and no row changes owner or section. */
  lemma DeleteKeepsContiguous(links: Table, id: LinkId, order: seq<LinkId>)
    requires id in links
    requires IsSectionOrder(links - {id}, links[id].sectionId, order)
    ensures var r := Positioned(links - {id}, order, |order|);
      && SectionIds(r, links[id].sectionId) == SectionIds(links, links[id].sectionId) - {id}
      && Contiguous(r, links[id].sectionId)
      && forall x :: x in r ==> r[x].userId == links[x].userId && r[x].sectionId == links[x].sectionId
  {
    var s, rest := links[id].sectionId, links - {id};
    ListingMakesContiguous(rest, s, order);
    PositionedKeepsFields(rest, order, |order|);
    assert SectionIds(Positioned(rest, order, |order|), s) == SectionIds(rest, s);
  }

  /** Positioning by a list that already names each link at its own index changes nothing. */
  lemma CurrentOrderIsFixed(links: Table, order: seq<LinkId>)
    requires forall i :: 0 <= i < |order| ==> order[i] in links && links[order[i]].index == i
    ensures Positioned(links, order, |order|) == links
  {
    assert order[..|order|] == order;
    forall x | x in links
      ensures Positioned(links, order, |order|)[x] == links[x]
    {
      if x in order {
        assert order[IndexOf(order, x)] == x;
      }
    }
  }

  /** The position in `order` of the first id that is missing from the table
      or owned by someone other than `actor`; `|order|` when there is none. */
  function FirstRejected(links: Table, actor: UserId, order: seq<LinkId>): (k: nat)
    ensures k <= |order|
    ensures forall i :: 0 <= i < k ==> order[i] in links && Authorized(links[order[i]], actor)
    ensures k < |order| ==> order[k] !in links || !Authorized(links[order[k]], actor)
  {
    if order == [] then 0
    else if order[0] !in links || !Authorized(links[order[0]], actor) then 0
    else 1 + FirstRejected(links, actor, order[1..])
  }

  /** The characterisation of `FirstRejected` pins it down. */
  lemma FirstRejectedIs(links: Table, actor: UserId, order: seq<LinkId>, k: nat)
    requires k <= |order|
    requires forall i :: 0 <= i < k ==> order[i] in links && Authorized(links[order[i]], actor)
    requires k < |order| ==> order[k] !in links || !Authorized(links[order[k]], actor)
    ensures FirstRejected(links, actor, order) == k
  {
  }

  /** Resubmitting a contiguous section's current order (what the client
      sends after a drop that moved nothing) is accepted and changes nothing. */
  lemma ReorderCurrentOrderIsNoop(links: Table, s: SectionId, order: seq<LinkId>, actor: UserId)
    requires Contiguous(links, s) && IsSectionOrder(links, s, order)
    requires forall x :: x in links && links[x].sectionId == s ==> Authorized(links[x], actor)
    ensures FirstRejected(links, actor, order) == |order|
    ensures Positioned(links, order, |order|) == links
  {
    ContiguousOrderIsPositional(links, s, order);
    CurrentOrderIsFixed(links, order);
  }

  /** A reorder that submits each link of an owned section exactly once is
      accepted, numbers the links by their submitted positions and leaves the
      section contiguous. */
  lemma ReorderPermutationIsContiguous(links: Table, s: SectionId, order: seq<LinkId>, actor: UserId)
    requires ListsSection(links, s, order)
    requires forall x :: x in links && links[x].sectionId == s ==> Authorized(links[x], actor)
    ensures FirstRejected(links, actor, order) == |order|
    ensures forall i :: 0 <= i < |order| ==> Positioned(links, order, |order|)[order[i]].index == i
    ensures Contiguous(Positioned(links, order, |order|), s)
  {
    assert order[..|order|] == order;
    ListingMakesContiguous(links, s, order);
  }

  // ---------------------------------------------------------------------------
  // Appending
  // ---------------------------------------------------------------------------

  /** The index `add` gives a new link of section `s`: 0 in an empty section,
      otherwise one more than the highest index there. */
  ghost predicate IsAppendIndex(links: Table, s: SectionId, i: int)
  {
    && (SectionIds(links, s) == {} ==> i == 0)
    && (SectionIds(links, s) != {} ==>
          && (exists p :: p in links && links[p].sectionId == s && links[p].index + 1 == i)
          && (forall q :: q in links && links[q].sectionId == s ==> links[q].index < i))
  }

  /** In a contiguous section of n links, the append index is n. */
  lemma AppendIndexIsSize(links: Table, s: SectionId, i: int)
    requires Contiguous(links, s) && IsAppendIndex(links, s, i)
    ensures i == |SectionIds(links, s)|
  {
    var ids := SectionIds(links, s);
    if ids != {} {
      var p :| p in links && links[p].sectionId == s && links[p].index + 1 == i;
      assert p in ids;
      InjectiveIndicesCard(links, ids);
      RangeCard(i);
      var image := IndicesOf(links, ids);
      assert image <= Range(i);
      assert |Range(i) - image| == |Range(i)| - |image|;
    }
  }

  /** Adding a row of section `s` adds its id to the section. */
  lemma AddedToSection(links: Table, s: SectionId, id: LinkId, link: Link)
    requires id !in links && link.sectionId == s
    ensures SectionIds(links[id := link], s) == SectionIds(links, s) + {id}
    ensures |SectionIds(links[id := link], s)| == |SectionIds(links, s)| + 1
  {
    assert SectionIds(links[id := link], s) == SectionIds(links, s) + {id};
  }

  /** A contiguous section of n links with a new link at index n added is contiguous. */
  lemma ExtendContiguous(links: Table, s: SectionId, id: LinkId, link: Link)
    requires Contiguous(links, s)
    requires id !in links && link.sectionId == s && link.index == |SectionIds(links, s)|
    ensures SectionIds(links[id := link], s) == SectionIds(links, s) + {id}
    ensures Contiguous(links[id := link], s)
  {
    AddedToSection(links, s, id, link);
  }

  /** Appending to a contiguous section gives the new link index n and keeps it contiguous. */
  lemma AppendKeepsContiguous(links: Table, s: SectionId, id: LinkId, link: Link)
    requires Contiguous(links, s)
    requires id !in links && link.sectionId == s
    requires IsAppendIndex(links, s, link.index)
    ensures link.index == |SectionIds(links, s)|
    ensures SectionIds(links[id := link], s) == SectionIds(links, s) + {id}
    ensures Contiguous(links[id := link], s)
  {
    AppendIndexIsSize(links, s, link.index);
    ExtendContiguous(links, s, id, link);
  }

  // ---------------------------------------------------------------------------
  // Record updates: edit and thumbnails
  // ---------------------------------------------------------------------------

  /** The fields an `edit` request may carry; an absent field is left as it is. */
  datatype LinkEdit = LinkEdit(text: Option<string>, url: Option<string>, hidden: Option<bool>)

  /** `edit`: the submitted fields replace the stored ones. The position,
      owner, section and thumbnail of the link stay as they were. */
  function ApplyEdit(link: Link, edit: LinkEdit): (r: Link)
    ensures r.index == link.index && r.userId == link.userId && r.sectionId == link.sectionId
    ensures r.thumbnail == link.thumbnail && r.thumbnailPublicId == link.thumbnailPublicId
    ensures edit.text.Some? ==> r.text == edit.text.value
    ensures edit.url.Some? ==> r.url == edit.url.value
    ensures edit.hidden.Some? ==> r.hidden == edit.hidden.value
    ensures edit == LinkEdit(None, None, None) ==> r == link
  {
    link.(text := edit.text.GetOr(link.text),
          url := edit.url.GetOr(link.url),
          hidden := edit.hidden.GetOr(link.hidden))
  }

  /** The Cloudinary asset whose deletion `addThumbnail` and `removeThumbnail`
      request before they overwrite `link`: its public id when both the
      thumbnail and the public id are truthy, none otherwise. */
  function DestroyRequest(link: Link): (r: seq<string>)
    ensures |r| <= 1
    ensures r != [] <==> Truthy(link.thumbnail) && Truthy(link.thumbnailPublicId)
    ensures r != [] ==> Some(r[0]) == link.thumbnailPublicId
  {
    if Truthy(link.thumbnail) && Truthy(link.thumbnailPublicId) then [link.thumbnailPublicId.value] else []
  }

  /** `addThumbnail` as written: the update data is
      `{ thumbnail: url, thumbnailPublicId: publicId }`, and the database
      client skips a field whose value is `undefined`, so a request without
      a public id keeps the old one. */
  function WithThumbnailAsWritten(link: Link, url: string, publicId: Option<string>): (r: Link)
    ensures r.thumbnail == Some(url)
    ensures publicId.Some? ==> r.thumbnailPublicId == publicId
    ensures publicId.None? ==> r.thumbnailPublicId == link.thumbnailPublicId
    ensures r.(thumbnail := link.thumbnail, thumbnailPublicId := link.thumbnailPublicId) == link
  {
    link.(thumbnail := Some(url), thumbnailPublicId := if publicId.Some? then publicId else link.thumbnailPublicId)
  }

  /** A thumbnail given by URL after an uploaded one leaves the uploaded
      asset's public id on the record, so its deletion is requested a second
      time when that thumbnail is replaced or removed. */
  lemma StalePublicIdIsDestroyedTwice()
    ensures var uploaded := Link("u", "s", 0, "Blog", "https://blog.example", false,
                                 Some("https://cdn.example/p1.png"), Some("p1"));
            var byUrl := WithThumbnailAsWritten(uploaded, "https://img.example/a.png", None);
            && DestroyRequest(uploaded) == ["p1"]
            && byUrl.thumbnailPublicId == Some("p1")
            && DestroyRequest(byUrl) == ["p1"]
            && DestroyRequest(WithoutThumbnail(byUrl)) == []
  {
  }

  /** `addThumbnail` as intended: the record holds exactly the thumbnail and
      public id of this request (none when the thumbnail came by URL). */
  function WithThumbnail(link: Link, url: string, publicId: Option<string>): (r: Link)
    ensures r.thumbnail == Some(url) && r.thumbnailPublicId == publicId
    ensures r.(thumbnail := link.thumbnail, thumbnailPublicId := link.thumbnailPublicId) == link
  {
    link.(thumbnail := Some(url), thumbnailPublicId := publicId)
  }

  /** After the intended `addThumbnail`, the only asset whose deletion a
      later thumbnail change can request is the one uploaded with this
      request, never one that was already destroyed. */
  lemma WithThumbnailDestroysOnlyItsOwnUpload(link: Link, url: string, publicId: Option<string>)
    ensures DestroyRequest(WithThumbnail(link, url, publicId))
         == if url != "" && Truthy(publicId) then [publicId.value] else []
    ensures publicId.None? ==> DestroyRequest(WithThumbnail(link, url, publicId)) == []
  {
  }

  /** `removeThumbnail`: both thumbnail columns become null; nothing else changes. */
  function WithoutThumbnail(link: Link): (r: Link)
    ensures r.thumbnail.None? && r.thumbnailPublicId.None?
    ensures r.(thumbnail := link.thumbnail, thumbnailPublicId := link.thumbnailPublicId) == link
    ensures DestroyRequest(r) == []
  {
    link.(thumbnail := None, thumbnailPublicId := None)
  }
}
