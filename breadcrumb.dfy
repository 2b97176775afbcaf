/**
 * The breadcrumb trail: one list item per `Path` child, in order, with an `aria-hidden`
 * separator item between consecutive paths, inside a labelled `nav`.
 */
module BreadCrumb {
  import opened Options

  /** A `Path`'s props: `current`, an explicitly passed `aria-current`, and its content. */
  datatype PathProps = PathProps(current: bool, ariaCurrent: Option<string>, content: string)

  /** A child of the breadcrumb: a `BreadCrumb.Path` element or anything else (text, `false`, other elements). */
  datatype Child = Path(props: PathProps) | Other

  /** An item of the ordered list. */
  datatype ListItem = PathItem(path: PathProps) | SeparatorItem(ariaHidden: bool, content: string)

  /** The trail as the widget renders it. */
  datatype Nav = Nav(ariaLabel: string, items: seq<ListItem>)

  /** A `separator` prop is rendered only when it is truthy: present and not the empty string. */
  predicate Truthy(separator: Option<string>) {
    separator.Some? && separator.value != ""
  }

  /** `aria-current` of a rendered path: "page" when `current`, unless an explicit prop overrides it. */
  function AriaCurrent(p: PathProps): Option<string> {
    if p.ariaCurrent.Some? then p.ariaCurrent
    else if p.current then Some("page")
    else None
  }

  /** The separator item. */
  function Separator(separator: string): ListItem {
    SeparatorItem(true, separator)
  }

  /** The `Path` children, in order. */
  function PathsOf(children: seq<Child>): seq<PathProps>
    decreases |children|
  {
    if children == [] then []
    else (if children[0].Path? then [children[0].props] else []) + PathsOf(children[1..])
  }

  /** Some child is a `Path`. */
  predicate HasPath(children: seq<Child>) {
    exists j :: 0 <= j < |children| && children[j].Path?
  }

  /**
   * The list items as `BreadCrumb.tsx` computes them: a `Path` child is followed by a separator
   * when the separator is truthy and the child is not the last child counted by `Children.count`.
   * The child at index `i` is the last one exactly when the suffix starting at it has length one.
   */
  function ListItemsAsWritten(children: seq<Child>, separator: Option<string>): seq<ListItem>
    decreases |children|
  {
    if children == [] then []
    else
      var own :=
        if children[0].Path? then
          [PathItem(children[0].props)] + (if Truthy(separator) && |children| > 1 then [Separator(separator.value)] else [])
        else [];
      own + ListItemsAsWritten(children[1..], separator)
  }

  /** The list items with a separator after a `Path` exactly when another `Path` follows it. */
  function ListItems(children: seq<Child>, separator: Option<string>): seq<ListItem>
    decreases |children|
  {
    if children == [] then []
    else
      var own :=
        if children[0].Path? then
          [PathItem(children[0].props)] + (if Truthy(separator) && HasPath(children[1..]) then [Separator(separator.value)] else [])
        else [];
      own + ListItems(children[1..], separator)
  }

  /**
   * The rendered `nav`: labelled "Breadcrumb" unless an `aria-label` prop is passed, holding the
   * list items as the code computes them.
   */
  function BreadCrumb(children: seq<Child>, separator: Option<string>, ariaLabel: Option<string>): Nav {
    Nav(ariaLabel.GetOr("Breadcrumb"), ListItemsAsWritten(children, separator))
  }

  /** The reference layout: the paths with one separator between each two consecutive ones. */
  function Intersperse(paths: seq<PathProps>, separator: string): seq<ListItem>
    decreases |paths|
  {
    if paths == [] then []
    else if |paths| == 1 then [PathItem(paths[0])]
    else [PathItem(paths[0]), Separator(separator)] + Intersperse(paths[1..], separator)
  }

  /** The list items without separators. */
  function PathItems(paths: seq<PathProps>): seq<ListItem>
    decreases |paths|
  {
    if paths == [] then [] else [PathItem(paths[0])] + PathItems(paths[1..])
  }

  // ---------------------------------------------------------------------------
  // Properties

  lemma HasPathCons(children: seq<Child>)
    requires children != []
    ensures HasPath(children) <==> children[0].Path? || HasPath(children[1..])
  {
    if HasPath(children) && !children[0].Path? {
      var j :| 0 <= j < |children| && children[j].Path?;
      assert children[1..][j - 1].Path?;
    }
    if HasPath(children[1..]) {
      var j :| 0 <= j < |children[1..]| && children[1..][j].Path?;
      assert children[j + 1].Path?;
    }
  }

  lemma {:induction false} PathsOfEmpty(children: seq<Child>)
    ensures PathsOf(children) == [] <==> !HasPath(children)
    decreases |children|
  {
    if children != [] {
      HasPathCons(children);
      PathsOfEmpty(children[1..]);
    }
  }

  /**
   * With a truthy separator, the rendered list is the paths in order with exactly one separator
   * between consecutive paths, and none before the first or after the last.
   */
  lemma {:induction false} ListItemsIntersperse(children: seq<Child>, separator: Option<string>)
    requires Truthy(separator)
    ensures ListItems(children, separator) == Intersperse(PathsOf(children), separator.value)
    decreases |children|
  {
    if children != [] {
      ListItemsIntersperse(children[1..], separator);
      PathsOfEmpty(children[1..]);
      var rest := PathsOf(children[1..]);
      if children[0].Path? && rest != [] {
        var paths := PathsOf(children);
        assert paths == [children[0].props] + rest;
        assert paths[1..] == rest;
        assert Intersperse(paths, separator.value)
          == [PathItem(children[0].props), Separator(separator.value)] + Intersperse(rest, separator.value);
        assert ListItems(children, separator)
          == [PathItem(children[0].props), Separator(separator.value)] + ListItems(children[1..], separator);
      } else if children[0].Path? {
        assert PathsOf(children) == [children[0].props];
        assert ListItems(children, separator) == [PathItem(children[0].props)] + ListItems(children[1..], separator);
      } else {
        assert PathsOf(children) == rest;
        assert ListItems(children, separator) == ListItems(children[1..], separator);
      }
    }
  }

  /** Without a truthy separator, the rendered list is the paths in order and nothing else. */
  lemma {:induction false} ListItemsWithoutSeparator(children: seq<Child>, separator: Option<string>)
    requires !Truthy(separator)
    ensures ListItems(children, separator) == PathItems(PathsOf(children))
    ensures ListItemsAsWritten(children, separator) == PathItems(PathsOf(children))
    decreases |children|
  {
    if children != [] {
      ListItemsWithoutSeparator(children[1..], separator);
      if children[0].Path? {
        var paths := PathsOf(children);
        assert paths == [children[0].props] + PathsOf(children[1..]);
        assert paths[1..] == PathsOf(children[1..]);
        assert PathItems(paths) == [PathItem(children[0].props)] + PathItems(PathsOf(children[1..]));
        assert ListItems(children, separator) == [PathItem(children[0].props)] + ListItems(children[1..], separator);
        assert ListItemsAsWritten(children, separator)
          == [PathItem(children[0].props)] + ListItemsAsWritten(children[1..], separator);
      } else {
        assert PathsOf(children) == PathsOf(children[1..]);
        assert ListItems(children, separator) == ListItems(children[1..], separator);
        assert ListItemsAsWritten(children, separator) == ListItemsAsWritten(children[1..], separator);
      }
    }
  }

  /** The reference layout holds `k` paths and `k - 1` aria-hidden separators, alternating. */
  lemma {:induction false} IntersperseShape(paths: seq<PathProps>, separator: string)
    requires paths != []
    ensures |Intersperse(paths, separator)| == 2 * |paths| - 1
    ensures forall m :: 0 <= m < |paths| ==> Intersperse(paths, separator)[2 * m] == PathItem(paths[m])
    ensures forall m :: 0 <= m < |paths| - 1 ==> Intersperse(paths, separator)[2 * m + 1] == Separator(separator)
    decreases |paths|
  {
    if |paths| > 1 {
      IntersperseShape(paths[1..], separator);
      var all := Intersperse(paths, separator);
      var rest := Intersperse(paths[1..], separator);
      assert all == [PathItem(paths[0]), Separator(separator)] + rest;
      forall m | 1 <= m < |paths|
        ensures all[2 * m] == PathItem(paths[m])
      {
        assert all[2 * m] == rest[2 * (m - 1)];
      }
      forall m | 1 <= m < |paths| - 1
        ensures all[2 * m + 1] == Separator(separator)
      {
        assert all[2 * m + 1] == rest[2 * (m - 1) + 1];
      }
    }
  }

  /** As written and corrected agree whenever the last child is a `Path`. */
  lemma {:induction false} AsWrittenAgreesWhenLastIsPath(children: seq<Child>, separator: Option<string>)
    requires children != [] && children[|children| - 1].Path?
    ensures ListItemsAsWritten(children, separator) == ListItems(children, separator)
    decreases |children|
  {
    if |children| > 1 {
      var rest := children[1..];
      assert rest[|rest| - 1].Path?;
      assert HasPath(rest);
      AsWrittenAgreesWhenLastIsPath(rest, separator);
    }
  }

  /** With `k` `Path` children and nothing else, the trail shows the `k` paths and `k - 1` separators. */
  lemma PathOnlyTrail(children: seq<Child>, separator: Option<string>)
    requires children != [] && forall i :: 0 <= i < |children| ==> children[i].Path?
    requires Truthy(separator)
    ensures ListItemsAsWritten(children, separator) == Intersperse(PathsOf(children), separator.value)
    ensures |PathsOf(children)| == |children|
  {
    AsWrittenAgreesWhenLastIsPath(children, separator);
    ListItemsIntersperse(children, separator);
    PathsOfAllPaths(children);
  }

  lemma {:induction false} PathsOfAllPaths(children: seq<Child>)
    requires forall i :: 0 <= i < |children| ==> children[i].Path?
    ensures |PathsOf(children)| == |children|
    decreases |children|
  {
    if children != [] {
      PathsOfAllPaths(children[1..]);
    }
  }

  /** With no children the trail is an empty list inside a `nav` labelled "Breadcrumb". */
  lemma EmptyTrail(separator: Option<string>)
    ensures BreadCrumb([], separator, None) == Nav("Breadcrumb", [])
    ensures ListItemsAsWritten([], separator) == []
  {
  }

  /** The `nav` label is "Breadcrumb" unless overridden. */
  lemma NavLabel(children: seq<Child>, separator: Option<string>, ariaLabel: Option<string>)
    ensures BreadCrumb(children, separator, ariaLabel).ariaLabel == if ariaLabel.Some? then ariaLabel.value else "Breadcrumb"
  {
  }

  /** A path is marked as the current page exactly when `current` is set, absent an explicit `aria-current`. */
  lemma CurrentPage(p: PathProps)
    requires p.ariaCurrent.None?
    ensures AriaCurrent(p) == Some("page") <==> p.current
    ensures AriaCurrent(p) == None <==> !p.current
  {
  }

  lemma {:induction false} AsWrittenWithoutPaths(children: seq<Child>, separator: Option<string>)
    requires !HasPath(children)
    ensures ListItemsAsWritten(children, separator) == []
    decreases |children|
  {
    if children != [] {
      HasPathCons(children);
      AsWrittenWithoutPaths(children[1..], separator);
    }
  }

  /**
   * As written, a trailing child that is not a `Path` (a `{cond && <Path />}` that is false, a
   * text node) still counts as the last child, so the last path gets a dangling separator.
   */
  lemma {:induction false} AsWrittenDanglingSeparator(children: seq<Child>, separator: Option<string>)
    requires Truthy(separator) && HasPath(children) && !children[|children| - 1].Path?
    ensures ListItemsAsWritten(children, separator) != []
    ensures ListItemsAsWritten(children, separator)[|ListItemsAsWritten(children, separator)| - 1] == Separator(separator.value)
    decreases |children|
  {
    HasPathCons(children);
    var rest := children[1..];
    if HasPath(rest) {
      assert !rest[|rest| - 1].Path?;
      AsWrittenDanglingSeparator(rest, separator);
    } else {
      AsWrittenWithoutPaths(rest, separator);
    }
  }

  /**
   * The code's layout with a truthy separator, in every case: the paths interspersed with
   * separators, plus one dangling separator exactly when the last child is not a `Path`.
   */
  lemma AsWrittenLayout(children: seq<Child>, separator: Option<string>)
    requires Truthy(separator)
    ensures HasPath(children) && !children[|children| - 1].Path? ==>
      ListItemsAsWritten(children, separator) == Intersperse(PathsOf(children), separator.value) + [Separator(separator.value)]
    ensures !(HasPath(children) && !children[|children| - 1].Path?) ==>
      ListItemsAsWritten(children, separator) == Intersperse(PathsOf(children), separator.value)
  {
    if HasPath(children) && !children[|children| - 1].Path? {
      AsWrittenTrailing(children, separator);
    } else if HasPath(children) {
      AsWrittenAgreesWhenLastIsPath(children, separator);
      ListItemsIntersperse(children, separator);
    } else {
      AsWrittenWithoutPaths(children, separator);
      PathsOfEmpty(children);
    }
  }

  lemma {:induction false} AsWrittenTrailing(children: seq<Child>, separator: Option<string>)
    requires Truthy(separator) && HasPath(children) && !children[|children| - 1].Path?
    ensures ListItemsAsWritten(children, separator) == Intersperse(PathsOf(children), separator.value) + [Separator(separator.value)]
    decreases |children|
  {
    HasPathCons(children);
    var rest := children[1..];
    var sep := separator.value;
    if children[0].Path? {
      var p := children[0].props;
      assert ListItemsAsWritten(children, separator) == [PathItem(p), Separator(sep)] + ListItemsAsWritten(rest, separator);
      assert PathsOf(children) == [p] + PathsOf(rest);
      if HasPath(rest) {
        assert !rest[|rest| - 1].Path?;
        AsWrittenTrailing(rest, separator);
        PathsOfEmpty(rest);
        assert PathsOf(children)[1..] == PathsOf(rest);
        assert Intersperse(PathsOf(children), sep) == [PathItem(p), Separator(sep)] + Intersperse(PathsOf(rest), sep);
      } else {
        AsWrittenWithoutPaths(rest, separator);
        PathsOfEmpty(rest);
        assert PathsOf(children) == [p];
      }
    } else {
      assert !rest[|rest| - 1].Path?;
      AsWrittenTrailing(rest, separator);
      assert ListItemsAsWritten(children, separator) == ListItemsAsWritten(rest, separator);
      assert PathsOf(children) == PathsOf(rest);
    }
  }

  /** The corrected layout never ends with a separator. */
  lemma CorrectedEndsWithPath(children: seq<Child>, separator: Option<string>)
    requires HasPath(children)
    ensures ListItems(children, separator) != []
    ensures ListItems(children, separator)[|ListItems(children, separator)| - 1].PathItem?
  {
    PathsOfEmpty(children);
    if Truthy(separator) {
      ListItemsIntersperse(children, separator);
      IntersperseShape(PathsOf(children), separator.value);
      var n := |PathsOf(children)|;
      assert 2 * n - 1 - 1 == 2 * (n - 1);
    } else {
      ListItemsWithoutSeparator(children, separator);
      PathItemsShape(PathsOf(children));
    }
  }

  lemma {:induction false} PathItemsShape(paths: seq<PathProps>)
    ensures |PathItems(paths)| == |paths|
    ensures forall j :: 0 <= j < |paths| ==> PathItems(paths)[j] == PathItem(paths[j])
    decreases |paths|
  {
    if paths != [] {
      PathItemsShape(paths[1..]);
    }
  }

  /** The smallest input that shows the dangling separator: a path followed by a non-path child. */
  lemma DanglingSeparatorExample(p: PathProps)
    ensures ListItemsAsWritten([Path(p), Other], Some("/")) == [PathItem(p), Separator("/")]
    ensures ListItems([Path(p), Other], Some("/")) == [PathItem(p)]
  {
    assert [Path(p), Other][1..] == [Other];
    assert !HasPath([Other]);
  }
}
