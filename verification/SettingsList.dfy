/** Lists of settings nodes: a layer's list follows the list below by replaying its deltas until it is overridden
    (src/plugin/src/Sleepy/Settings/listnode.cpp:88-184, 211-274, 311-349, 394-451). */
module SettingsList {
  import opened ListDelta

  /** An element is a node of its own, with the element below it as fallback, if it has one. */
  class Element {
    var fallback: Element?

    constructor (fallback: Element?)
      ensures this.fallback == fallback
    {
      this.fallback := fallback;
    }
  }

  class ListNode {
    const fallback: ListNode?
    var elements: seq<Element>
    var overridden: bool
    /** The lists of the layers above. */
    var listeners: seq<ListNode>

    /** A global list after its first load, with as many elements as it has defaults. */
    constructor Global(defaults: nat)
      ensures IsPart() && fallback == null && listeners == [] && |elements| == defaults && !overridden
    {
      var nodes := MakeNodes(seq(defaults, _ => null));
      fallback, elements, overridden, listeners := null, nodes, false, [];
    }

    /** A list of a layer after its first load from a file that does not mention it. */
    constructor Over(below: ListNode)
      requires below.IsTree()
      modifies below`listeners
      ensures IsPart() && fallback == below && !overridden && HasLinks(below.elements)
      ensures below.listeners == old(below.listeners) + [this]
    {
      hide AllDistinct, HasLinks;
      var nodes := MakeNodes(below.elements);
      fallback, elements, overridden, listeners := below, nodes, false, [];
      new;
      LinksMade(nodes, below.elements);
      ghost var all := below.listeners;
      assert forall l :: l in all ==>
        below.MirroredBy(below.elements, l) && l != this && Disjoint(l.elements, elements);
      DistinctAppend(all, this);
      below.listeners := below.listeners + [this];
      assert below.HasLayers();
      forall l | l in below.listeners ensures below.MirroredBy(below.elements, l) {
        assert l == this || l in all;
      }
    }

    lemma LinksMade(nodes: seq<Element>, links: seq<Element?>)
      requires nodes == elements && |links| == |nodes| && forall i :: 0 <= i < |nodes| ==> nodes[i].fallback == links[i]
      ensures HasLinks(links)
    {
    }

    ghost predicate IsDistinct()
      reads `elements
    {
      AllDistinct(elements)
    }

    /** The fallbacks of the elements, one by one. */
    ghost predicate HasLinks(links: seq<Element?>)
      reads `elements, elements
    {
      |links| == |elements| && forall i :: 0 <= i < |elements| ==> elements[i].fallback == links[i]
    }

    /** Takes an element out and away. */
    method DeleteNode(index: nat, ghost links: seq<Element?>)
      requires index < |elements| && IsDistinct() && HasLinks(links)
      modifies `elements, elements[index]
      ensures elements == RemoveAt(old(elements), index) && IsDistinct() && HasLinks(RemoveAt(links, index))
      ensures forall e :: e in elements ==> e.fallback == old(e.fallback)
    {
      var element := elements[index];
      elements := elements[..index] + elements[index + 1..];
      element.fallback := null;
    }

    /** Makes an element over another one, or over none. */
    method InsertNode(index: nat, link: Element?, ghost links: seq<Element?>) returns (e: Element)
      requires index <= |elements| && IsDistinct() && HasLinks(links)
      modifies `elements
      ensures fresh(e) && elements == InsertAt(old(elements), index, e) && IsDistinct()
        && HasLinks(InsertAt(links, index, link))
    {
      e := new Element(link);
      elements := elements[..index] + [e] + elements[index..];
    }

    method MoveElement(from: nat, dest: nat, ghost links: seq<Element?>)
      requires from < |elements| && dest < |elements| && IsDistinct() && HasLinks(links)
      modifies `elements
      ensures elements == MoveItem(old(elements), from, dest) && IsDistinct() && HasLinks(MoveItem(links, from, dest))
    {
      hide AllDistinct;
      MoveDistinct(elements, from, dest);
      MovedAt(links, from, dest);
      MovedAt(elements, from, dest);
      var e := elements[from];
      elements := elements[..from] + elements[from + 1..];
      elements := elements[..dest] + [e] + elements[dest..];
    }

    /** The element below an index, unless the list is overridden. */
    method FallbackFor(index: int) returns (e: Element?)
      ensures e ==
        if overridden || fallback == null || !(0 <= index < |fallback.elements|) then null else fallback.elements[index]
    {
      if overridden {
        return null;
      }
      if fallback == null || !(0 <= index < |fallback.elements|) {
        return null;
      }
      return fallback.elements[index];
    }

    /** Takes elements out from the last to the first. */
    method DeleteNodes(removed: seq<nat>, ghost was: seq<Element?>)
      requires IsDistinct() && HasLinks(was) && CanTake(|elements|, removed)
      modifies `elements, elements
      ensures IsDistinct() && elements == TakeAll(old(elements), removed) && HasLinks(TakeAll(was, removed))
    {
      hide AllDistinct, RemoveAt;
      ghost var start, links := elements, was;
      assert removed[..|removed|] == removed;
      for i := |removed| downto 0
        invariant IsDistinct() && HasLinks(links) && CanTake(|elements|, removed[..i])
        invariant TakeAll(elements, removed[..i]) == TakeAll(start, removed)
        invariant TakeAll(links, removed[..i]) == TakeAll(was, removed)
        invariant forall e :: e in elements ==> e in start
      {
        assert removed[..i + 1][..i] == removed[..i] && elements[removed[i]] in elements;
        RemoveKeeps(elements, removed[i]);
        DeleteNode(removed[i], links);
        links := RemoveAt(links, removed[i]);
      }
    }

    /** Adds elements in order, each over the element below its index. */
    method InsertNodes(added: seq<nat>, ghost was: seq<Element?>) returns (ghost created: seq<Element>)
      requires fallback != null && fallback != this && !overridden && IsDistinct() && HasLinks(was)
        && CanAdd(|elements|, added)
      requires forall k :: 0 <= k < |added| ==> added[k] < |fallback.elements|
      modifies `elements
      ensures IsDistinct() && fresh(set e | e in created) && |created| == |added|
      ensures elements == AddAll(old(elements), added, created)
      ensures HasLinks(AddAll(was, added, ItemsAt<Element?>(fallback.elements, added)))
    {
      hide AllDistinct, InsertAt, CanAdd, AddAll;
      ghost var kept: seq<Element>, links: seq<Element?>, items: seq<Element?> := elements, was,
        ItemsAt<Element?>(fallback.elements, added);
      created := [];
      NothingAdded(kept, added);
      NothingAdded(was, added);
      for i := 0 to |added|
        invariant IsDistinct() && HasLinks(links) && |created| == i && fresh(set e | e in created)
        invariant CanAdd(|kept|, added[..i]) && |elements| == |kept| + i
        invariant elements == AddAll(kept, added[..i], created) && links == AddAll(was, added[..i], items[..i])
      {
        var link := FallbackFor(added[i]);
        AddOneMore(was, added, i, items[..i], link);
        assert CanAdd(|kept|, added) && added[i] <= |elements|;
        var e := InsertNode(added[i], link, links);
        AddOneMore(kept, added, i, created, e);
        links := InsertAt(links, added[i], link);
        assert items[..i + 1] == items[..i] + [link];
        created := created + [e];
      }
      assert added[..|added|] == added && items[..|items|] == items;
    }

    method MoveNodes(moved: seq<(nat, nat)>, ghost was: seq<Element?>)
      requires IsDistinct() && HasLinks(was) && CanMove(|elements|, moved)
      modifies `elements
      ensures IsDistinct() && elements == MoveAll(old(elements), moved) && HasLinks(MoveAll(was, moved))
    {
      hide AllDistinct, MoveItem;
      ghost var start, links := elements, was;
      for i := 0 to |moved|
        invariant IsDistinct() && HasLinks(links) && |elements| == |start|
        invariant elements == MoveAll(start, moved[..i]) && links == MoveAll(was, moved[..i])
      {
        MoveOneMore(start, moved, i);
        MoveOneMore(was, moved, i);
        MoveElement(moved[i].0, moved[i].1, links);
        links := MoveItem(links, moved[i].0, moved[i].1);
      }
      assert moved[..|moved|] == moved;
    }

    /** The list below changed: a list that is not overridden replays the change. */
    method OnFallbackListNotify(d: Delta, ghost was: seq<Element?>) returns (ghost created: seq<Element>)
      requires fallback != null && fallback != this && IsDistinct()
      requires !overridden ==> HasLinks(was) && LeadsTo<Element?>(was, d, fallback.elements)
      modifies `elements, elements
      ensures IsDistinct() && fresh(set e | e in created)
      ensures overridden ==> elements == old(elements) && created == []
      ensures forall e :: overridden && e in elements ==> unchanged(e)
      ensures !overridden ==>
        && HasLinks(fallback.elements) && CanReplay(|old(elements)|, d) && |created| == |d.added|
        && elements == Replay(old(elements), d, created)
    {
      hide AllDistinct, TakeAll, AddAll, MoveAll, CanTake, CanAdd;
      created := [];
      if overridden {
        return;
      }
      DeleteNodes(d.removed, was);
      ghost var links: seq<Element?> := TakeAll(was, d.removed);
      created := InsertNodes(d.added, links);
      links := AddAll(links, d.added, ItemsAt<Element?>(fallback.elements, d.added));
      MoveNodes(d.moved, links);
    }

    /** The lists above are different lists and share no elements. */
    ghost predicate HasLayers()
      reads `elements, `listeners, listeners
    {
      && IsDistinct() && AllDistinct(listeners)
      && (forall l :: l in listeners ==> l.IsLayerOver(this) && Disjoint(l.elements, elements))
      && (forall l, m :: l in listeners && m in listeners && l != m ==> Disjoint(l.elements, m.elements))
    }

    ghost predicate IsLayerOver(below: ListNode)
      reads `elements, `listeners
    {
      fallback == below && this != below && listeners == [] && IsDistinct()
    }

    /** An overridden list stands for itself; another one lies element by element over the list below. */
    ghost predicate Mirrors(below: seq<Element?>)
      reads `elements, `overridden, elements
    {
      if overridden then IsDetached() else HasLinks(below)
    }

    ghost predicate IsDetached()
      reads `elements, elements
    {
      forall e :: e in elements ==> e.fallback == null
    }

    ghost function ElementsAbove(): set<object>
      reads `listeners, listeners
    {
      set l, e | l in listeners && e in l.elements :: e
    }

    /** Every list above mirrors the elements given, or stands for itself. */
    ghost predicate MirroredBy(below: seq<Element?>, l: ListNode)
      requires l in listeners
      reads `listeners, listeners, ElementsAbove()
    {
      assert forall e :: e in l.elements ==> e in ElementsAbove();
      l.Mirrors(below)
    }

    /** The list as it was: the same elements over the same others. */
    twostate predicate Kept()
      reads this, elements
    {
      elements == old(elements) && overridden == old(overridden) && listeners == old(listeners)
      && forall e :: e in elements ==> e.fallback == old(e.fallback)
    }

    /** The list followed a delta below, unless it is overridden. */
    twostate predicate Followed(d: Delta, new below: seq<Element?>, new created: seq<Element>)
      reads this, elements
    {
      if old(overridden) then Kept()
      else
        && !overridden && listeners == old(listeners) && HasLinks(below)
        && CanReplay(|old(elements)|, d) && |created| == |d.added| && elements == Replay(old(elements), d, created)
        && forall e :: e in created ==> fresh(e)
    }

    /** Tells one of the lists above. */
    method Tell(i: nat, d: Delta, ghost was: seq<Element?>) returns (ghost created: seq<Element>)
      requires HasLayers() && i < |listeners|
      requires !listeners[i].overridden ==> listeners[i].HasLinks(was) && LeadsTo<Element?>(was, d, elements)
      modifies listeners[i], listeners[i].elements
      ensures HasLayers() && listeners == old(listeners) && elements == old(elements) && overridden == old(overridden)
      ensures listeners[i].Followed(d, elements, created)
      ensures forall j :: 0 <= j < |listeners| && j != i ==> listeners[j].Kept()
    {
      hide LeadsTo, Replay, CanReplay;
      var l := listeners[i];
      ghost var before := l.elements;
      created := l.OnFallbackListNotify(d, was);
      if !l.overridden {
        ReplayKeeps(before, d, created);
      }
    }

    /** Tells all lists above. */
    method ElementsChanged(d: Delta, ghost was: seq<Element?>) returns (ghost created: seq<seq<Element>>)
      requires HasLayers()
      requires forall l :: l in listeners && !l.overridden ==> l.HasLinks(was) && LeadsTo<Element?>(was, d, elements)
      modifies listeners, ElementsAbove()
      ensures HasLayers() && listeners == old(listeners) && elements == old(elements) && overridden == old(overridden)
      ensures |created| == |listeners|
        && forall i :: 0 <= i < |listeners| ==> listeners[i].Followed(d, elements, created[i])
    {
      hide HasLayers, LeadsTo, Replay, CanReplay;
      created := [];
      ghost var all := listeners;
      for i := 0 to |listeners|
        invariant HasLayers() && listeners == all && elements == old(elements) && overridden == old(overridden)
        invariant |created| == i && forall j :: 0 <= j < i ==> all[j].Followed(d, elements, created[j])
        invariant forall j :: i <= j < |all| ==> all[j].Kept()
      {
        assert all[i] in all && all[i].Kept();
        forall e | e in all[i].elements ensures e in old(ElementsAbove()) {
        }
        ghost var c := Tell(i, d, was);
        created := created + [c];
      }
    }

    // --- Edits ---

    /** The global list with all lists over it. */
    ghost predicate IsTree()
      reads this, elements, listeners, ElementsAbove()
    {
      fallback == null && HasLayers() && IsDetached() && forall l :: l in listeners ==> MirroredBy(elements, l)
    }

    ghost function Home(): ListNode {
      if fallback == null then this else fallback
    }

    /** This is one of the lists of such a tree. */
    ghost predicate IsPart()
      reads this, fallback, Home().elements, Home().listeners, Home().ElementsAbove()
    {
      Home().IsTree() && (fallback != null ==> this in fallback.listeners)
    }

    /** What that means: a list that is not overridden has the length of the global list, with each element over the one
        of the same index; the elements of an overridden list lie over none. */
    lemma PartMeans(l: ListNode)
      requires IsPart() && l in Home().listeners
      ensures l.overridden ==> forall e :: e in l.elements ==> e.fallback == null
      ensures !l.overridden ==> |l.elements| == |Home().elements|
      ensures !l.overridden ==> forall i :: 0 <= i < |l.elements| ==> l.elements[i].fallback == Home().elements[i]
    {
    }

    /** An edit makes a list stand for itself; a reset puts it over the list below again. */
    method RecordWrite(override: bool)
      modifies `overridden, elements
      ensures overridden == override
      ensures overridden && !old(overridden) ==> IsDetached()
      ensures (overridden && !old(overridden)) || forall e :: e in elements ==> e.fallback == old(e.fallback)
    {
      var wasOverride := overridden;
      overridden := override;
      if !wasOverride && override {
        for i := 0 to |elements|
          invariant overridden == override
          invariant forall j :: 0 <= j < i ==> elements[j].fallback == null
        {
          elements[i].fallback := null;
        }
      }
    }

    /** An edit of the elements that has not been recorded and announced yet. */
    ghost predicate IsEdited(override: bool, d: Delta, was: seq<Element?>)
      reads this, elements, listeners, ElementsAbove(), fallback, Home().elements, Home().listeners,
      Home().ElementsAbove()
    {
      if fallback == null then
        HasLayers() && IsDetached() && LeadsTo<Element?>(was, d, elements)
        && forall l :: l in listeners ==> MirroredBy(was, l)
      else
        && fallback.fallback == null && fallback.HasLayers() && fallback.IsDetached() && this in fallback.listeners
        && (forall l :: l in fallback.listeners && l != this ==> fallback.MirroredBy(fallback.elements, l))
        && if override then overridden ==> IsDetached() else HasLinks(fallback.elements)
    }

    /** Nothing changed but this list. */
    twostate predicate OnlyThis()
      reads fallback,
        if fallback == null then [] else fallback.elements, if fallback == null then [] else fallback.listeners,
            if fallback == null then {} else fallback.ElementsAbove()
    {
      fallback != null && fallback.Kept() && forall l :: l in fallback.listeners && l != this ==> fallback.KeptAbove(l)
    }

    twostate predicate KeptAbove(l: ListNode)
      requires l in listeners
      reads `listeners, listeners, ElementsAbove()
    {
      assert forall e :: e in l.elements ==> e in ElementsAbove();
      l.Kept()
    }

    /** Records an edit and tells the lists above, here of the global list. */
    method AnnounceGlobal(override: bool, d: Delta, ghost was: seq<Element?>) returns (ghost created: seq<seq<Element>>)
      requires IsEdited(override, d, was) && fallback == null
      modifies `overridden, elements, listeners, ElementsAbove()
      ensures IsTree() && overridden == override && elements == old(elements) && listeners == old(listeners)
      ensures |created| == |listeners|
        && forall i :: 0 <= i < |listeners| ==> listeners[i].Followed(d, elements, created[i])
    {
      hide LeadsTo, Replay, CanReplay;
      RecordWrite(override);
      created := ElementsChanged(d, was);
      assert IsDetached();
      forall l | l in listeners ensures MirroredBy(elements, l) {
        var i :| 0 <= i < |listeners| && listeners[i] == l;
        assert listeners[i].Followed(d, elements, created[i]);
      }
    }

    /** Here of a list above, which has none above itself. */
    method AnnounceLayer(override: bool, d: Delta, ghost was: seq<Element?>) returns (ghost created: seq<seq<Element>>)
      requires IsEdited(override, d, was) && fallback != null
      modifies `overridden, elements, listeners, ElementsAbove()
      ensures IsPart() && overridden == override && elements == old(elements) && listeners == old(listeners) == []
        && created == []
      ensures OnlyThis()
    {
      hide LeadsTo, Replay, CanReplay;
      assert listeners == [];
      RecordWrite(override);
      created := ElementsChanged(d, was);
      assert fallback.Kept();
      forall l | l in fallback.listeners ensures fallback.MirroredBy(fallback.elements, l) {
        assert l == this || fallback.KeptAbove(l);
      }
    }

    method Announce(override: bool, d: Delta, ghost was: seq<Element?>) returns (ghost created: seq<seq<Element>>)
      requires IsEdited(override, d, was)
      modifies `overridden, elements, listeners, ElementsAbove()
      ensures IsPart() && overridden == override && elements == old(elements) && listeners == old(listeners)
      ensures fallback != null ==> OnlyThis()
      ensures |created| == |listeners|
        && forall i :: 0 <= i < |listeners| ==> listeners[i].Followed(d, elements, created[i])
    {
      hide LeadsTo, Replay, CanReplay, HasLayers, HasLinks;
      if fallback == null {
        created := AnnounceGlobal(override, d, was);
      } else {
        created := AnnounceLayer(override, d, was);
      }
    }

    twostate predicate FollowedAbove(d: Delta, i: nat, new created: seq<Element>)
      requires i < |listeners| && listeners == old(listeners)
      reads `elements, `listeners, listeners, ElementsAbove()
    {
      assert forall e :: e in listeners[i].elements ==> e in ElementsAbove();
      listeners[i].Followed(d, elements, created)
    }

    /** What an edit leaves: a list that stands for itself, under lists that followed it, and nothing else changed. */
    twostate predicate Edited(d: Delta, new created: seq<seq<Element>>)
      requires |created| == |listeners|
      reads this, elements, listeners, ElementsAbove(), fallback, Home().elements, Home().listeners,
      Home().ElementsAbove()
    {
      && IsPart() && listeners == old(listeners) && (fallback != null ==> OnlyThis())
      && forall i :: 0 <= i < |listeners| ==> FollowedAbove(d, i, created[i])
    }

    /** Whether elements may become those of this list: its own, or ones no list has. */
    ghost predicate CanHold(next: seq<Element>)
      reads this, fallback, Home().listeners
    {
      AllDistinct(next) && forall e ::
        e in next ==> e in elements || (e !in Home().elements && e !in Home().ElementsAbove())
    }

    /** Whether the elements lie over what they should, before a write is recorded. */
    ghost predicate CanLink(next: seq<Element>, override: bool)
      reads this, next, fallback
    {
      if override || fallback == null then
        overridden || fallback == null ==> forall e :: e in next ==> e.fallback == null
      else |next| == |fallback.elements| && forall i :: 0 <= i < |next| ==> next[i].fallback == fallback.elements[i]
    }

    /** Replaces the elements, records the edit and tells the lists above. */
    method Edit(next: seq<Element>, gone: seq<Element>, override: bool, d: Delta)
      returns (ghost created: seq<seq<Element>>)
      requires IsPart() && LeadsTo<Element?>(elements, d, next) && CanHold(next) && CanLink(next, override)
      requires forall e :: e in gone ==> e in elements && e !in next
      modifies this, elements, (set e | e in next), listeners, ElementsAbove()
      ensures elements == next && overridden == override && |created| == |listeners|
      ensures Edited(d, created)
    {
      hide LeadsTo, Replay, CanReplay, HasLayers, IsEdited, CanHold, CanLink, IsPart, MirroredBy;
      ghost var was, all := elements, listeners;
      ReplaceElements(next, gone, override, d);
      assert forall i :: 0 <= i < |all| ==> KeptAbove(all[i]);
      created := Announce(override, d, was);
      forall i | 0 <= i < |listeners| ensures FollowedAbove(d, i, created[i]) {
        assert all[i].Followed(d, elements, created[i]);
      }
    }

    method ReplaceElements(next: seq<Element>, gone: seq<Element>, ghost override: bool, ghost d: Delta)
      requires IsPart() && LeadsTo<Element?>(elements, d, next) && CanHold(next) && CanLink(next, override)
      requires forall e :: e in gone ==> e in elements && e !in next
      modifies `elements, elements
      ensures elements == next && IsEdited(override, d, old(elements)) && overridden == old(overridden) && OthersKept()
    {
      hide LeadsTo;
      ghost var was := elements;
      DetachNodes(gone, next);
      elements := next;
      if fallback == null {
        assert IsDetached();
        assert HasLayers();
        forall l | l in listeners ensures MirroredBy(was, l) {
          assert KeptAbove(l);
        }
      } else {
        assert fallback.Kept();
        assert fallback.IsDetached();
        forall l | l in fallback.listeners && l != this ensures fallback.MirroredBy(fallback.elements, l) {
          assert fallback.KeptAbove(l);
        }
        assert fallback.HasLayers();
      }
    }

    /** Elements that leave a list lose what they were over. */
    method DetachNodes(gone: seq<Element>, ghost next: seq<Element>)
      requires IsPart() && forall e :: e in gone ==> e in elements && e !in next
      modifies elements
      ensures elements == old(elements) && OthersKept()
      ensures forall e :: e in next ==> e.fallback == old(e.fallback)
    {
      for i := 0 to |gone|
        invariant elements == old(elements) && OthersKept()
        invariant forall e :: e in next ==> e.fallback == old(e.fallback)
      {
        assert gone[i] in elements;
        gone[i].fallback := null;
      }
    }

    /** The other lists are as they were. */
    twostate predicate OthersKept()
      reads this, listeners, ElementsAbove(), fallback, Home().elements, Home().listeners, Home().ElementsAbove()
    {
      listeners == old(listeners) && (forall l :: l in listeners ==> KeptAbove(l)) && (fallback != null ==> OnlyThis())
    }

    /** The list's own elements may stay, whatever becomes of their order. */
    lemma OwnElements(next: seq<Element>)
      requires IsPart() && AllDistinct(next) && forall e :: e in next ==> e in elements
      ensures CanHold(next) && CanLink(next, true)
    {
    }

    lemma PartDistinct()
      requires IsPart()
      ensures IsDistinct()
    {
    }

    method Remove(index: int) returns (ghost created: seq<seq<Element>>)
      requires IsPart()
      modifies this, elements, listeners, ElementsAbove()
      ensures overridden && |created| == |listeners|
      ensures if 0 <= index < old(|elements|)
              then elements == RemoveAt(old(elements), index) && Edited(Delta([], [index], []), created)
              else elements == old(elements) && EditedNothing()
    {
      hide IsPart, CanHold, CanLink, LeadsTo, Edited, EditedNothing, AllDistinct;
      if !(0 <= index < |elements|) {
        created := RecordOnly();
        return;
      }
      PartDistinct();
      RemoveDistinct(elements, index);
      var next := RemoveAt(elements, index);
      OwnElements(next);
      RemoveLeads<Element?>(elements, index);
      created := Edit(next, [elements[index]], true, Delta([], [index], []));
    }

    method Move(from: int, dest: int) returns (ghost created: seq<seq<Element>>)
      requires IsPart()
      modifies this, elements, listeners, ElementsAbove()
      ensures overridden && |created| == |listeners|
      ensures if 0 <= from < old(|elements|) && 0 <= dest < old(|elements|)
              then elements == MoveItem(old(elements), from, dest)
              && Edited(Delta([], [], [(from as nat, dest as nat)]), created)
              else elements == old(elements) && EditedNothing()
    {
      hide IsPart, CanHold, CanLink, LeadsTo, Edited, EditedNothing, AllDistinct;
      if !(0 <= from < |elements|) || !(0 <= dest < |elements|) {
        created := RecordOnly();
        return;
      }
      PartDistinct();
      MoveDistinct(elements, from, dest);
      MoveItemKeeps(elements, from, dest);
      var next := MoveItem(elements, from, dest);
      OwnElements(next);
      MoveLeads<Element?>(elements, from, dest);
      created := Edit(next, [], true, Delta([], [], [(from as nat, dest as nat)]));
    }

    method Clear() returns (ghost created: seq<seq<Element>>)
      requires IsPart()
      modifies this, elements, listeners, ElementsAbove()
      ensures elements == [] && overridden && |created| == |listeners|
      ensures if old(elements) != [] then Edited(Delta([], UpTo(old(|elements|)), []), created) else EditedNothing()
    {
      hide IsPart, CanHold, CanLink, LeadsTo, Edited, EditedNothing;
      if elements == [] {
        created := RecordOnly();
        return;
      }
      OwnElements([]);
      ReplaceLeads<Element?>(elements, []);
      created := Edit([], elements, true, Delta([], UpTo(|elements|), []));
    }

    /** Elements just made belong to no list yet. */
    twostate lemma NewElements(new next: seq<Element>)
      requires old(IsPart()) && IsPart() && elements == old(elements) && AllDistinct(next)
      requires Home().elements == old(Home().elements) && Home().ElementsAbove() == old(Home().ElementsAbove())
      requires forall e :: e in next ==> e in elements || fresh(e)
      ensures CanHold(next)
    {
    }

    /** Puts a new element at an index, or at the end if the index is none. */
    method Insert(index: int) returns (e: Element, ghost created: seq<seq<Element>>)
      requires IsPart()
      modifies this, elements, listeners, ElementsAbove()
      ensures overridden && |created| == |listeners| && fresh(e)
      ensures var at := if 0 <= index < old(|elements|) then index else old(|elements|);
        elements == InsertAt(old(elements), at, e) && Edited(Delta([at], [], []), created)
    {
      hide CanHold, LeadsTo, AllDistinct;
      var at := if 0 <= index < |elements| then index else |elements|;
      PartDistinct();
      e := new Element(null);
      var next := InsertAt(elements, at, e);
      InsertDistinct(elements, at, e);
      NewElements(next);
      InsertLeads<Element?>(elements, at, e);
      created := Edit(next, [], true, Delta([at], [], []));
    }

    /** New elements over the ones given. */
    static method MakeNodes(links: seq<Element?>) returns (nodes: seq<Element>)
      ensures |nodes| == |links| && AllDistinct(nodes)
      ensures forall i :: 0 <= i < |nodes| ==> nodes[i].fallback == links[i]
      ensures forall e :: e in nodes ==> fresh(e)
    {
      nodes := [];
      for i := 0 to |links|
        invariant |nodes| == i && AllDistinct(nodes)
        invariant forall j :: 0 <= j < i ==> nodes[j].fallback == links[j]
        invariant forall e :: e in nodes ==> fresh(e)
      {
        var e := new Element(links[i]);
        nodes := nodes + [e];
      }
    }

    /** Replaces all elements by new ones. */
    method ReplaceAll(links: seq<Element?>, override: bool) returns (ghost created: seq<seq<Element>>)
      requires IsPart()
      requires (override && overridden) || fallback == null ==> forall i :: 0 <= i < |links| ==> links[i] == null
      requires !override && fallback != null ==> links == fallback.elements
      modifies this, elements, listeners, ElementsAbove()
      ensures overridden == override && |created| == |listeners| && |elements| == |links|
      ensures forall e :: e in elements ==> fresh(e)
      ensures Edited(Delta(UpTo(|links|), UpTo(old(|elements|)), []), created)
    {
      hide CanHold, LeadsTo, AllDistinct, UpTo;
      var next := MakeNodes(links);
      assert forall e :: e in next ==> fresh(e) && e !in elements;
      assert CanLink(next, override);
      NewElements(next);
      ReplaceLeads<Element?>(elements, next);
      created := Edit(next, elements, override, Delta(UpTo(|links|), UpTo(|elements|), []));
    }

    /** Assigns a list of properties from QML: new elements, over those below where the list is not overridden yet. */
    method SetFromList(n: nat) returns (ghost created: seq<seq<Element>>)
      requires IsPart()
      modifies this, elements, listeners, ElementsAbove()
      ensures overridden && |elements| == n && |created| == |listeners| && forall e :: e in elements ==> fresh(e)
      ensures Edited(Delta(UpTo(n), UpTo(old(|elements|)), []), created)
    {
      hide UpTo;
      var links: seq<Element?> := [];
      for i := 0 to n
        invariant |links| == i && (overridden || fallback == null ==> forall j :: 0 <= j < i ==> links[j] == null)
        modifies {}
      {
        var link := FallbackFor(i);
        links := links + [link];
      }
      created := ReplaceAll(links, true);
    }

    /** Loads a JSON array: new elements over none. Anything but an array is refused. */
    method SyncJson(isArray: bool, n: nat) returns (ok: bool, ghost created: seq<seq<Element>>)
      requires IsPart()
      modifies this, elements, listeners, ElementsAbove()
      ensures ok == isArray && |created| == |listeners|
      ensures ok ==> overridden && |elements| == n && forall e :: e in elements ==> fresh(e)
      ensures ok ==> Edited(Delta(UpTo(n), UpTo(old(|elements|)), []), created)
      ensures !ok ==> IsPart() && Kept() && OthersKept()
    {
      hide IsPart, UpTo, Edited;
      if !isArray {
        return false, seq(|listeners|, _ => []);
      }
      var links: seq<Element?> := seq(n, _ => null);
      created := ReplaceAll(links, true);
      ok := true;
    }

    /** Puts the list over the list below again, or back to its defaults. */
    method ResetToDefaults(defaults: nat) returns (ghost created: seq<seq<Element>>)
      requires IsPart()
      modifies this, elements, listeners, ElementsAbove()
      ensures !overridden && |created| == |listeners| && forall e :: e in elements ==> fresh(e)
      ensures |elements| == if fallback == null then defaults else |fallback.elements|
      ensures Edited(Delta(UpTo(|elements|), UpTo(old(|elements|)), []), created)
    {
      hide IsPart, UpTo;
      var links: seq<Element?> := if fallback != null then fallback.elements else seq(defaults, _ => null);
      created := ReplaceAll(links, false);
    }

    /** An edit that changes no elements still makes the list stand for itself. */
    method RecordOnly() returns (ghost created: seq<seq<Element>>)
      requires IsPart()
      modifies `overridden, elements
      ensures elements == old(elements) && overridden && |created| == |listeners| && EditedNothing()
    {
      hide LeadsTo;
      assert fallback != null ==> listeners == [];
      RecordWrite(true);
      created := seq(|listeners|, _ => []);
      if fallback == null {
        assert IsDetached();
        assert forall l :: l in listeners ==> KeptAbove(l);
        assert IsTree();
      } else {
        assert fallback.Kept();
        forall l | l in fallback.listeners ensures fallback.MirroredBy(fallback.elements, l) {
          assert l == this || fallback.KeptAbove(l);
        }
        assert fallback.IsTree();
      }
    }

    twostate predicate EditedNothing()
      reads this, listeners, ElementsAbove(), fallback, Home().elements, Home().listeners, Home().ElementsAbove()
    {
      && IsPart() && overridden && listeners == old(listeners) && (fallback != null ==> OnlyThis())
      && forall l :: l in listeners ==> KeptAbove(l)
    }
  }

  ghost predicate Disjoint(s: seq<Element>, t: seq<Element>) {
    forall e :: e in s ==> e !in t
  }
}
