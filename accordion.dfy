/**
 * The single-expand accordion: item ids, the expanded item and its toggle policy, the
 * open state and ARIA ids each item derives, and the header's Space key.
 */
module Accordion {
  import opened Options
  import opened Strings
  import Dom

  /**
   * An Item's `id` prop: not passed, passed as `undefined` (as a wrapper forwarding an optional
   * id does), or a string.
   */
  datatype IdProp = Absent | Undefined | Given(id: string)

  /** A child of the accordion: an `Accordion.Item` with its `id` prop, or anything else. */
  datatype Child = Item(idProp: IdProp) | Other

  /** `props.id ?? fallback`: a missing and an `undefined` prop both fall back. */
  function Coalesce(p: IdProp, fallback: string): string {
    if p.Given? then p.id else fallback
  }

  /** The id collected for an Item child at position `index`: its own `id`, else the prefix and the index. */
  function OwnId(child: Child, prefix: string, index: nat): string
    requires child.Item?
  {
    Coalesce(child.idProp, prefix + NatToString(index))
  }

  /**
   * The `id` prop an Item child renders with after `{ id: queued, ...props }`: the spread copies
   * an `undefined` own prop over the queued id, so only a missing prop takes the queued one.
   */
  function Spread(p: IdProp, queued: string): Option<string> {
    match p
    case Absent => Some(queued)
    case Undefined => None
    case Given(id) => Some(id)
  }

  /** What the `cloneElement` pass returns for one child. */
  datatype Rendered = Unchanged | ItemWithId(id: Option<string>)

  /** The rendered child at position `index`: an Item with its `id`, or the child untouched. */
  function RenderedChild(child: Child, prefix: string, index: nat): Rendered {
    if child.Item? then ItemWithId(Spread(child.idProp, OwnId(child, prefix, index))) else Unchanged
  }

  /** The ids of the Item children of `children`, whose first element sits at position `offset`. */
  function ItemIdsFrom(children: seq<Child>, prefix: string, offset: nat): seq<string>
    decreases |children|
  {
    if children == [] then []
    else
      var head := if children[0].Item? then [OwnId(children[0], prefix, offset)] else [];
      head + ItemIdsFrom(children[1..], prefix, offset + 1)
  }

  /** `ids`: one id per Item child, in declaration order. */
  function ItemIds(children: seq<Child>, prefix: string): seq<string> {
    ItemIdsFrom(children, prefix, 0)
  }

  function First(ids: seq<string>): Option<string> {
    if |ids| > 0 then Some(ids[0]) else None
  }

  /**
   * The `setExpand` policy: the expanded id after an item whose `id` is `id` (`None` for
   * `undefined`) is toggled.
   */
  function NextExpand(collapse: bool, expand: Option<string>, id: Option<string>): Option<string> {
    if collapse then (if expand == id then None else id)
    else if expand != id then id
    else expand
  }

  /** What an Item publishes to its header and panel. */
  datatype ItemState = ItemState(open: bool, controls: string, labelledby: string)

  /** JavaScript's `id + suffix`, where an `undefined` id is rendered as "undefined". */
  function Concat(id: Option<string>, suffix: string): string {
    id.GetOr("undefined") + suffix
  }

  /** The Item's context: `open` is `expand === props.id`, and the two ARIA ids. */
  function ItemContext(expand: Option<string>, id: Option<string>): ItemState {
    ItemState(expand == id, Concat(id, "controls"), Concat(id, "labelledby"))
  }

  /** The header's button attributes. */
  datatype HeaderButton = HeaderButton(id: string, ariaExpanded: bool, ariaControls: string)

  function Header(item: ItemState): HeaderButton {
    HeaderButton(item.labelledby, item.open, item.controls)
  }

  /** The panel's attributes, and whether it renders its children. */
  datatype PanelView = PanelView(role: Option<string>, id: string, ariaLabelledby: string, showsChildren: bool)

  function Panel(item: ItemState): PanelView {
    PanelView(if item.open then Some("region") else None, item.controls, item.labelledby, item.open)
  }

  /** The header's window keydown handler toggles only for Space on its own, focused button. */
  predicate HeaderKeyToggles(active: Dom.Handle, button: Dom.Handle, code: string) {
    active == button && code == "Space"
  }

  /**
   * The push loop over the children: one id per Item child.
   */
  method CollectIds(children: seq<Child>, prefix: string) returns (ids: seq<string>)
    ensures ids == ItemIds(children, prefix)
  {
    ids := [];
    var index := 0;
    while index < |children|
      invariant 0 <= index <= |children|
      invariant ids + ItemIdsFrom(children[index..], prefix, index) == ItemIds(children, prefix)
    {
      assert children[index..][1..] == children[index + 1..];
      if children[index].Item? {
        ids := ids + [Coalesce(children[index].idProp, prefix + NatToString(index))];
      }
      index := index + 1;
    }
  }

  /**
   * The `cloneElement` pass: each Item child receives `{ id: ids.shift(), ...props }`; other
   * children are returned untouched. Each Item child without an `id` prop gets exactly the id
   * collected for it, an Item with its own string keeps it, and one whose prop is `undefined`
   * renders with no id.
   */
  method AssignIds(children: seq<Child>, prefix: string) returns (handed: seq<Rendered>)
    ensures |handed| == |children|
    ensures forall j :: 0 <= j < |children| ==> handed[j] == RenderedChild(children[j], prefix, j)
    ensures forall j :: 0 <= j < |children| && children[j].Item? && !children[j].idProp.Undefined? ==>
      handed[j] == ItemWithId(Some(OwnId(children[j], prefix, j)))
  {
    var queue := CollectIds(children, prefix);
    handed := [];
    var index := 0;
    while index < |children|
      invariant 0 <= index <= |children|
      invariant queue == ItemIdsFrom(children[index..], prefix, index)
      invariant |handed| == index
      invariant forall j :: 0 <= j < index ==> handed[j] == RenderedChild(children[j], prefix, j)
    {
      assert children[index..][1..] == children[index + 1..];
      if children[index].Item? {
        var shifted := queue[0];
        queue := queue[1..];
        handed := handed + [ItemWithId(Spread(children[index].idProp, shifted))];
      } else {
        handed := handed + [Unchanged];
      }
      index := index + 1;
    }
  }

  /** The accordion root (`Single`): its item ids, its policy and its `expand` state. */
  class Single {
    const collapse: bool
    const ids: seq<string>
    var expand: Option<string>

    /** The expanded id names an item, and without `collapse` some item is always expanded. */
    ghost predicate Valid()
      reads this
    {
      (expand.Some? ==> expand.value in ids) && (!collapse && |ids| > 0 ==> expand.Some?)
    }

    /** Mounting: the first Item child is expanded. */
    constructor (children: seq<Child>, prefix: string, collapse: bool)
      ensures this.collapse == collapse
      ensures ids == ItemIds(children, prefix)
      ensures expand == First(ids)
      ensures Valid()
    {
      this.collapse := collapse;
      var collected := CollectIds(children, prefix);
      ids := collected;
      expand := First(collected);
    }

    /** `setExpand(id)`, called by the toggle of an item whose `id` is `id` (header click). */
    method SetExpand(id: Option<string>)
      modifies this
      ensures expand == NextExpand(collapse, old(expand), id)
      ensures old(Valid()) && id.Some? && id.value in ids ==> Valid()
    {
      if collapse {
        expand := if expand == id then None else id;
      } else if expand != id {
        expand := id;
      }
    }

    /** The header's keydown handler for the item with `id` whose button is `button`. */
    method HeaderKeyDown(id: Option<string>, active: Dom.Handle, button: Dom.Handle, code: string)
      returns (prevented: bool)
      modifies this
      ensures prevented == HeaderKeyToggles(active, button, code)
      ensures expand == if prevented then NextExpand(collapse, old(expand), id) else old(expand)
      ensures old(Valid()) && id.Some? && id.value in ids ==> Valid()
    {
      prevented := HeaderKeyToggles(active, button, code);
      if prevented {
        SetExpand(id);
      }
    }
  }

  // ---------------------------------------------------------------------------
  // Ids

  lemma {:induction false} ItemIdsFromAt(children: seq<Child>, prefix: string, offset: nat, j: nat)
    requires j < |children| && children[j].Item?
    requires forall i :: 0 <= i < j ==> !children[i].Item?
    ensures First(ItemIdsFrom(children, prefix, offset)) == Some(OwnId(children[j], prefix, offset + j))
    decreases j
  {
    if j > 0 {
      ItemIdsFromAt(children[1..], prefix, offset + 1, j - 1);
    }
  }

  lemma {:induction false} ItemIdsFromEmpty(children: seq<Child>, prefix: string, offset: nat)
    requires forall i :: 0 <= i < |children| ==> !children[i].Item?
    ensures ItemIdsFrom(children, prefix, offset) == []
    decreases |children|
  {
    if children != [] {
      ItemIdsFromEmpty(children[1..], prefix, offset + 1);
    }
  }

  /** Before any toggle, the expanded id is the first Item child's id; none without Items. */
  lemma InitialExpand(children: seq<Child>, prefix: string)
    ensures forall j ::
              0 <= j < |children| && children[j].Item? && (forall i :: 0 <= i < j ==> !children[i].Item?) ==>
              First(ItemIds(children, prefix)) == Some(OwnId(children[j], prefix, j))
    ensures (forall i :: 0 <= i < |children| ==> !children[i].Item?) ==> First(ItemIds(children, prefix)) == None
  {
    forall j | 0 <= j < |children| && children[j].Item? && (forall i :: 0 <= i < j ==> !children[i].Item?)
      ensures First(ItemIds(children, prefix)) == Some(OwnId(children[j], prefix, j))
    {
      ItemIdsFromAt(children, prefix, 0, j);
    }
    if forall i :: 0 <= i < |children| ==> !children[i].Item? {
      ItemIdsFromEmpty(children, prefix, 0);
    }
  }

  /** `x` is a generated id with index at least `offset`. */
  ghost predicate GeneratedFrom(x: string, prefix: string, offset: nat) {
    exists k: nat :: offset <= k && x == prefix + NatToString(k)
  }

  lemma {:induction false} ItemIdsFromGenerated(children: seq<Child>, prefix: string, offset: nat)
    requires forall i :: 0 <= i < |children| ==> children[i].Item? ==> !children[i].idProp.Given?
    ensures forall x :: x in ItemIdsFrom(children, prefix, offset) ==> GeneratedFrom(x, prefix, offset)
    ensures Distinct(ItemIdsFrom(children, prefix, offset))
    decreases |children|
  {
    if children != [] {
      var rest := ItemIdsFrom(children[1..], prefix, offset + 1);
      ItemIdsFromGenerated(children[1..], prefix, offset + 1);
      if !children[0].Item? {
        assert ItemIdsFrom(children, prefix, offset) == rest;
        forall x | x in rest
          ensures GeneratedFrom(x, prefix, offset)
        {
          assert GeneratedFrom(x, prefix, offset + 1);
          var k: nat :| offset + 1 <= k && x == prefix + NatToString(k);
          assert offset <= k;
        }
      } else {
        var head := prefix + NatToString(offset);
        assert !children[0].idProp.Given?;
        assert OwnId(children[0], prefix, offset) == head;
        forall x | x in rest
          ensures x != head
        {
          assert GeneratedFrom(x, prefix, offset + 1);
          var k: nat :| offset + 1 <= k && x == prefix + NatToString(k);
          if x == head {
            PrefixCancel(prefix, NatToString(k), NatToString(offset));
            NatToStringInjective(k, offset);
          }
        }
        var all := [head] + rest;
        assert all == ItemIdsFrom(children, prefix, offset);
        forall x | x in all
          ensures GeneratedFrom(x, prefix, offset)
        {
          if x == head {
            assert offset <= offset && x == prefix + NatToString(offset);
          } else {
            assert x in rest && GeneratedFrom(x, prefix, offset + 1);
            var k: nat :| offset + 1 <= k && x == prefix + NatToString(k);
            assert offset <= k;
          }
        }
        forall i, j | 0 <= i < j < |all|
          ensures all[i] != all[j]
        {
          if i > 0 {
            assert all[i] == rest[i - 1] && all[j] == rest[j - 1];
          } else {
            assert all[j] == rest[j - 1] && all[j] in rest;
          }
        }
      }
    }
  }

  /** Generated ids never collide: without string `id` props, all collected ids are distinct. */
  lemma GeneratedIdsDistinct(children: seq<Child>, prefix: string)
    requires forall i :: 0 <= i < |children| ==> children[i].Item? ==> !children[i].idProp.Given?
    ensures Distinct(ItemIds(children, prefix))
  {
    ItemIdsFromGenerated(children, prefix, 0);
  }

  // ---------------------------------------------------------------------------
  // The toggle policy

  /** With `collapse`: toggling the expanded item closes it; toggling another opens exactly it. */
  lemma CollapsibleToggle(expand: Option<string>, id: string)
    ensures NextExpand(true, expand, Some(id)) == None <==> expand == Some(id)
    ensures expand != Some(id) ==> NextExpand(true, expand, Some(id)) == Some(id)
  {
  }

  /** Without `collapse`: toggling the expanded item is a no-op; toggling another switches to it. */
  lemma NonCollapsibleToggle(expand: Option<string>, id: string)
    ensures NextExpand(false, expand, Some(id)) == Some(id)
    ensures expand == Some(id) ==> NextExpand(false, expand, Some(id)) == expand
  {
  }

  /** The expanded id after the items with ids `toggles` are toggled in turn. */
  function ExpandAfter(collapse: bool, expand: Option<string>, toggles: seq<Option<string>>): Option<string>
    decreases |toggles|
  {
    if toggles == [] then expand
    else ExpandAfter(collapse, NextExpand(collapse, expand, toggles[0]), toggles[1..])
  }

  /**
   * Without `collapse`, once an item is expanded no sequence of toggles of items that render
   * with an id empties the group.
   */
  lemma {:induction false} NonCollapsibleNeverEmpty(expand: Option<string>, toggles: seq<Option<string>>)
    requires expand.Some? || toggles != []
    requires forall i :: 0 <= i < |toggles| ==> toggles[i].Some?
    ensures ExpandAfter(false, expand, toggles).Some?
    decreases |toggles|
  {
    if toggles != [] {
      NonCollapsibleNeverEmpty(NextExpand(false, expand, toggles[0]), toggles[1..]);
    }
  }

  /**
   * Toggling the same item twice with `collapse` leaves that item expanded if it was expanded,
   * and nothing expanded otherwise (a previously expanded other item is not restored).
   */
  lemma CollapsibleToggleTwice(expand: Option<string>, id: string)
    ensures NextExpand(true, NextExpand(true, expand, Some(id)), Some(id)) == (if expand == Some(id) then Some(id) else None)
  {
  }

  // ---------------------------------------------------------------------------
  // Derived values

  /**
   * An item is open iff its rendered id equals the expanded one, so with distinct rendered ids
   * (at most one of them `undefined`) at most one item is open.
   */
  lemma AtMostOneOpen(expand: Option<string>, ids: seq<Option<string>>, i: nat, j: nat)
    requires Distinct(ids) && i < |ids| && j < |ids|
    requires ItemContext(expand, ids[i]).open && ItemContext(expand, ids[j]).open
    ensures i == j
  {
  }

  /** Header and panel point at each other, and the panel is a region showing content only while open. */
  lemma HeaderPanelWiring(expand: Option<string>, id: Option<string>)
    ensures Header(ItemContext(expand, id)).ariaControls == Panel(ItemContext(expand, id)).id
    ensures Panel(ItemContext(expand, id)).ariaLabelledby == Header(ItemContext(expand, id)).id
    ensures Header(ItemContext(expand, id)).ariaExpanded <==> expand == id
    ensures Panel(ItemContext(expand, id)).role == Some("region") <==> expand == id
    ensures Panel(ItemContext(expand, id)).showsChildren <==> expand == id
  {
  }

  /** The four ARIA ids of two different items are four different strings. */
  lemma AriaIdsDistinct(a: string, b: string)
    requires a != b
    ensures a + "controls" != a + "labelledby"
    ensures a + "controls" != b + "controls"
    ensures a + "labelledby" != b + "labelledby"
    ensures a + "controls" != b + "labelledby"
  {
    if a + "controls" == b + "controls" {
      SuffixCancel(a, b, "controls");
    }
    if a + "labelledby" == b + "labelledby" {
      SuffixCancel(a, b, "labelledby");
    }
    assert (a + "controls")[|a + "controls"| - 1] == 's';
    assert (b + "labelledby")[|b + "labelledby"| - 1] == 'y';
    assert (a + "labelledby")[|a + "labelledby"| - 1] == 'y';
  }

  /**
   * An Item whose `id` prop is `undefined` renders with no id: it is open exactly while nothing
   * is expanded, its ARIA ids are "undefinedcontrols" and "undefinedlabelledby", and toggling it
   * empties the group whatever the policy, even without `collapse`.
   */
  lemma UndefinedIdItem(collapse: bool, expand: Option<string>, prefix: string, index: nat)
    ensures RenderedChild(Item(Undefined), prefix, index) == ItemWithId(None)
    ensures ItemContext(expand, None).open <==> expand.None?
    ensures ItemContext(expand, None).controls == "undefinedcontrols"
    ensures ItemContext(expand, None).labelledby == "undefinedlabelledby"
    ensures NextExpand(collapse, expand, None) == None
  {
  }

  /** Three items, without `collapse`: A is open; toggling B opens B; toggling B again keeps B. */
  method DefaultStateScenario() {
    var children := [Item(Given("A")), Item(Given("B")), Item(Given("C"))];
    var accordion := new Single(children, ":r0:", false);
    assert accordion.ids == ["A", "B", "C"];
    assert accordion.expand == Some("A");
    accordion.SetExpand(Some("B"));
    assert accordion.expand == Some("B");
    accordion.SetExpand(Some("B"));
    assert accordion.expand == Some("B");
  }
}
