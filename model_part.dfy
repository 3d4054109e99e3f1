/** One node of the part tree (`ModelPart`).

    A part owns an ordered list of children, keeps a non-owning pointer to its
    parent, holds one value per tree-view column (name, then the "true"/"false"
    flags) and a visibility flag, and has an on-screen actor once one is set up.
    The repository holds three near-identical versions of this class (under src/,
    at the top level and under changes/); their tree and column code is the same,
    so it is modelled once, and the members on which they differ (construction
    and the VR actor copy) appear once per version. */
module ModelParts {
  import opened Values
  import opened Actors
  import Lists

  class ModelPart {
    var children: seq<ModelPart>
    var itemData: seq<Value>
    var parentItem: ModelPart?
    var isVisible: bool
    var actor: Actor?
    var fileName: string

    /** Constructor of the src/ version: stores the column values and the parent
        pointer; the visibility flag is not initialised (its value is arbitrary
        here) and no actor exists until geometry is loaded. */
    constructor (data: seq<Value>, parent: ModelPart?)
      ensures itemData == data && parentItem == parent
      ensures children == [] && actor == null && fileName == ""
    {
      itemData, parentItem := data, parent;
      children, actor, fileName := [], null, "";
    }

    /** Constructor of the top-level and changes/ versions: the part starts
        visible, childless, and with its own yellow, visible actor. */
    constructor WithActor(data: seq<Value>, parent: ModelPart?)
      ensures itemData == data && parentItem == parent
      ensures children == [] && isVisible && fileName == ""
      ensures actor != null && fresh(actor)
      ensures actor.Attrs() == Defaults.(colour := Yellow, visible := true)
    {
      itemData, parentItem := data, parent;
      children, isVisible, fileName := [], true, "";
      var a := new Actor();
      a.colour := Yellow;
      a.visible := true;
      actor := a;
    }

    /** Adds `item` as the last child and makes this part its parent. There is no
        re-parenting check in the source: the caller must not pass a part that
        already sits in a child list. */
    method AppendChild(item: ModelPart)
      requires item !in children
      requires item.parentItem != null ==> item !in item.parentItem.children
      modifies this`children, item`parentItem
      ensures item.parentItem == this
      ensures children == old(children) + [item]
      ensures ChildCount() == old(ChildCount()) + 1
      ensures Child(ChildCount() - 1) == item && item.Row() == ChildCount() - 1
      ensures forall row :: 0 <= row < old(ChildCount()) ==> Child(row) == old(Child(row))
    {
      item.parentItem := this;
      children := children + [item];
      Lists.IndexOfAppend(old(children), item, item);
    }

    /** The child in row `row`, or null when the row is out of range. */
    function Child(row: int): (c: ModelPart?)
      reads this
      ensures c != null <==> 0 <= row < |children|
      ensures c != null ==> c == children[row]
    {
      if row < 0 || row >= |children| then null else children[row]
    }

    /** The number of children: exactly the rows for which `Child` answers. */
    function ChildCount(): (n: nat)
      reads this
      ensures n == |children|
      ensures forall row :: 0 <= row < n <==> Child(row) != null
    {
      |children|
    }

    /** The number of column values held by the part; `Data` is empty outside it. */
    function ColumnCount(): (n: nat)
      reads this
      ensures n == |itemData|
      ensures forall column :: !(0 <= column < n) ==> Data(column) == Null
    {
      |itemData|
    }

    /** The value in `column`, or an empty value when the column is out of range. */
    function Data(column: int): (v: Value)
      reads this
      ensures 0 <= column < |itemData| ==> v == itemData[column]
      ensures !(0 <= column < |itemData|) ==> v == Null
    {
      if column < 0 || column >= |itemData| then Null else itemData[column]
    }

    /** Replaces the value of an in-range column; out of range nothing changes. */
    method Set(column: int, value: Value)
      modifies this`itemData
      ensures ColumnCount() == old(ColumnCount())
      ensures 0 <= column < old(ColumnCount()) ==> itemData == old(itemData)[column := value]
      ensures !(0 <= column < old(ColumnCount())) ==> itemData == old(itemData)
    {
      if column < 0 || column >= |itemData| {
        return;
      }
      itemData := itemData[column := value];
    }

    /** Like `Set`, and reports whether the column was in range. */
    method SetData(column: int, value: Value) returns (ok: bool)
      modifies this`itemData
      ensures ok <==> 0 <= column < old(ColumnCount())
      ensures ColumnCount() == old(ColumnCount())
      ensures itemData == if ok then old(itemData)[column := value] else old(itemData)
      ensures ok ==> Data(column) == value
      ensures forall c :: c != column ==> Data(c) == old(Data(c))
    {
      if column < 0 || column >= |itemData| {
        return false;
      }
      itemData := itemData[column := value];
      return true;
    }

    /** The stored parent pointer (`parentItem` in src/ and the top level,
        `parent` in changes/). */
    function ParentItem(): (p: ModelPart?)
      reads this
      ensures p == parentItem
    {
      parentItem
    }

    /** The position of this part in its parent's child list (the first one, as
        `indexOf` searches from the front), -1 if the parent does not list it, and 0
        for a part without a parent. */
    function Row(): (r: int)
      reads this, parentItem
      ensures parentItem == null ==> r == 0
      ensures parentItem != null ==> -1 <= r < |parentItem.children|
      ensures parentItem != null ==> (r == -1 <==> this !in parentItem.children)
      ensures parentItem != null && r >= 0 ==> parentItem.children[r] == this
      ensures parentItem != null ==> forall j :: 0 <= j < r ==> parentItem.children[j] != this
    {
      if parentItem != null then Lists.IndexOf(parentItem.children, this) else 0
    }

    /** Sets the visibility flag and, when the part has an actor, the actor's
        visibility too. */
    method SetVisible(visible: bool)
      modifies this`isVisible, actor
      ensures Visible() == visible
      ensures actor != null ==> actor.Attrs() == old(actor.Attrs()).(visible := visible)
    {
      isVisible := visible;
      if actor != null {
        actor.visible := visible;
      }
    }

    /** The visibility flag. */
    function Visible(): (v: bool)
      reads this
      ensures v == isVisible
    {
      isVisible
    }

    /** Loading geometry (src/ version): a new reader for `name`, a new yellow
        visible actor, and the part becomes visible. */
    method LoadSTL(name: string)
      modifies this`actor, this`isVisible, this`fileName
      ensures fileName == name && Visible()
      ensures actor != null && fresh(actor)
      ensures actor.Attrs() == Defaults.(colour := Yellow, visible := true)
    {
      fileName := name;
      var a := new Actor();
      a.colour := Yellow;
      a.visible := true;
      actor := a;
      isVisible := true;
    }

    /** VR actor of the changes/ version: a brand-new actor on every call, whose six
        attributes are copied from the part's actor as they are at call time. */
    method GetVRActor() returns (vr: Actor)
      ensures fresh(vr)
      ensures vr.Attrs() == if actor != null then actor.Attrs() else Defaults
    {
      vr := new Actor();
      if actor != null {
        vr.colour := actor.colour;
        vr.opacity := actor.opacity;
        vr.position := actor.position;
        vr.orientation := actor.orientation;
        vr.scale := actor.scale;
        vr.visible := actor.visible;
      }
    }

    /** Copies the six attributes of `gui` onto the part's own actor (changes/
        version); does nothing when either actor is missing. The VR actor it then
        fills is a fresh one that nothing keeps. */
    method LinkProperties(gui: Actor?)
      modifies actor
      ensures actor != null && gui != null ==> actor.Attrs() == old(gui.Attrs())
      ensures actor == null || gui == null ==> actor == null || actor.Attrs() == old(actor.Attrs())
    {
      if actor == null || gui == null {
        return;
      }
      actor.colour := gui.colour;
      actor.opacity := gui.opacity;
      actor.position := gui.position;
      actor.orientation := gui.orientation;
      actor.scale := gui.scale;
      actor.visible := gui.visible;

      var vr := GetVRActor();
      vr.colour := gui.colour;
      vr.opacity := gui.opacity;
      vr.position := gui.position;
      vr.orientation := gui.orientation;
      vr.scale := gui.scale;
      vr.visible := gui.visible;
    }

    /** VR actor of the top-level version: a brand-new actor on every call that
        takes over the material (colour and opacity) of the part's actor; position,
        orientation, scale and visibility keep a new actor's defaults. */
    method GetVRActorMaterial() returns (vr: Actor)
      ensures fresh(vr)
      ensures vr.Attrs() == if actor != null
                            then Defaults.(colour := actor.colour, opacity := actor.opacity)
                            else Defaults
    {
      vr := new Actor();
      if actor != null {
        vr.colour, vr.opacity := actor.colour, actor.opacity;
      }
    }

    /** Top-level version of `LinkProperties`: the part's actor takes over the
        material of `gui`; nothing happens when either actor is missing. */
    method LinkMaterial(gui: Actor?)
      modifies actor
      ensures actor != null && gui != null ==>
                actor.Attrs() == old(actor.Attrs()).(colour := old(gui.colour), opacity := old(gui.opacity))
      ensures actor == null || gui == null ==> actor == null || actor.Attrs() == old(actor.Attrs())
    {
      if actor == null || gui == null {
        return;
      }
      actor.colour, actor.opacity := gui.colour, gui.opacity;
      var vr := GetVRActorMaterial();
      vr.colour, vr.opacity := gui.colour, gui.opacity;
    }
  }

  /** The part tree rooted at `root` whose nodes are the keys of `depth`.
      Children are the owning edges: every child of a node is a node whose parent
      pointer points back, one level deeper, listed once; every node except the
      root has a parent that lists it. Depths make the structure acyclic. */
  ghost predicate IsTree(root: ModelPart, depth: map<ModelPart, nat>)
    reads depth.Keys
  {
    && root in depth && depth[root] == 0 && root.parentItem == null
    && (forall n, i :: n in depth && 0 <= i < |n.children| ==>
          n.children[i] in depth && n.children[i].parentItem == n && depth[n.children[i]] == depth[n] + 1)
    && (forall n {:trigger n.parentItem} :: n in depth && n != root ==>
          n.parentItem != null && n.parentItem in depth && n in n.parentItem.children)
    && (forall n, i, j :: n in depth && 0 <= i < j < |n.children| ==> n.children[i] != n.children[j])
  }

  /** `AppendChild` on a part `p` of a tree, with a part `c` that is not yet in
      the tree: the result is again a tree, with `c` one level below `p`. */
  method AppendToTree(root: ModelPart, ghost depth: map<ModelPart, nat>, p: ModelPart, c: ModelPart)
      returns (ghost depth': map<ModelPart, nat>)
    requires IsTree(root, depth) && p in depth && c !in depth
    requires c.children == [] && (c.parentItem != null ==> c !in c.parentItem.children)
    modifies p`children, c`parentItem
    ensures depth' == depth[c := depth[p] + 1] && IsTree(root, depth')
    ensures p.children == old(p.children) + [c] && c.parentItem == p
  {
    p.AppendChild(c);
    depth' := depth[c := depth[p] + 1];
    forall n, i | n in depth' && 0 <= i < |n.children|
      ensures n.children[i] in depth' && n.children[i].parentItem == n && depth'[n.children[i]] == depth'[n] + 1
    {
      if n != p || i < |n.children| - 1 {
        assert n in depth && n.children[i] == old(n.children[i]);
      }
    }
    forall n, i, j | n in depth' && 0 <= i < j < |n.children|
      ensures n.children[i] != n.children[j]
    {
      if n == p && j == |n.children| - 1 {
        assert old(n.children[i]) in depth;
      }
    }
  }

  /** Every node other than the root sits one level below a parent that holds it
      at the node's own row: `parent.children[row()] == this`. */
  lemma ChildAtOwnRow(root: ModelPart, depth: map<ModelPart, nat>, n: ModelPart)
    requires IsTree(root, depth) && n in depth && n != root
    ensures n.parentItem != null && n.parentItem in depth
    ensures 0 <= n.Row() < n.parentItem.ChildCount() && n.parentItem.Child(n.Row()) == n
    ensures depth[n] == depth[n.parentItem] + 1
  {
    var p := n.parentItem;
    var i := n.Row();
    assert p.children[i] == n;
  }

  /** The parent pointer of every child leads back to the part that lists it. */
  lemma ParentOfChild(root: ModelPart, depth: map<ModelPart, nat>, m: ModelPart, i: int)
    requires IsTree(root, depth) && m in depth && 0 <= i < m.ChildCount()
    ensures m.Child(i) != null && m.Child(i).ParentItem() == m
  {
  }

  /** A part is owned by exactly one list, once: any part listing `c` as a child
      is `c`'s parent, and two rows of one list never hold the same part. */
  lemma OwnedOnce(root: ModelPart, depth: map<ModelPart, nat>, m: ModelPart, m': ModelPart, i: int, j: int)
    requires IsTree(root, depth) && m in depth && m' in depth
    requires 0 <= i < |m.children| && 0 <= j < |m'.children| && m.children[i] == m'.children[j]
    ensures m == m' && i == j
  {
  }

  /** The `k`-th ancestor of `n` (0 is `n` itself). */
  ghost function Ancestor(root: ModelPart, depth: map<ModelPart, nat>, n: ModelPart, k: nat): (a: ModelPart)
    requires IsTree(root, depth) && n in depth && k <= depth[n]
    reads depth.Keys
    ensures a in depth && depth[a] == depth[n] - k
    decreases k
  {
    if k == 0 then n
    else
      ChildAtOwnRow(root, depth, n);
      Ancestor(root, depth, n.parentItem, k - 1)
  }

  /** The tree is strict: no node is its own ancestor, and following parent
      pointers from any node reaches the root after `depth[n]` steps. */
  lemma {:induction false} AncestorsReachRoot(root: ModelPart, depth: map<ModelPart, nat>, n: ModelPart, k: nat)
    requires IsTree(root, depth) && n in depth && k <= depth[n]
    ensures 1 <= k ==> Ancestor(root, depth, n, k) != n
    ensures k == depth[n] ==> Ancestor(root, depth, n, k) == root
  {
    var a := Ancestor(root, depth, n, k);
    if a != root {
      ChildAtOwnRow(root, depth, a);
    }
  }
}
