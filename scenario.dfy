/** Clients of the part tree, following the main window: the default tree it
    builds at start-up, and what a VR actor obtained from a part does afterwards. */
module Scenario {
  import opened Values
  import opened Actors
  import opened ModelParts
  import opened ModelPartLists

  /** The decimal digit for `d`. */
  function Digit(d: nat): (c: char)
    requires d < 10
    ensures '0' <= c <= '9'
  {
    ('0' as int + d) as char
  }

  /** Columns of top-level part `i`: its name and the visible flag. */
  function TopLevelData(i: nat): (data: seq<Value>)
    requires i < 10
    ensures |data| == 2 && data[1] == FlagText(true)
  {
    [Text("TopLevel " + [Digit(i)]), FlagText(true)]
  }

  /** Columns of part `j` below top-level part `i`. */
  function ItemData(i: nat, j: nat): (data: seq<Value>)
    requires i < 10 && j < 10
    ensures |data| == 2 && data[1] == FlagText(true)
  {
    [Text("Item " + [Digit(i)] + "," + [Digit(j)]), FlagText(true)]
  }

  /** The start-up tree: three top-level parts named "TopLevel i", each with five
      parts named "Item i,j", every one shown as visible. That is 1 + 3 + 15 parts
      in a strict tree, and every part of the bottom level sits in a row below 5. */
  method BuildDefaultTree() returns (root: ModelPart, ghost depth: map<ModelPart, nat>)
    ensures IsTree(root, depth) && |depth| == 19
    ensures root.itemData == Header && |root.children| == 3
    ensures forall i :: 0 <= i < 3 ==> |root.children[i].children| == 5
    ensures forall n :: n in depth && depth[n] == 2 ==> 0 <= n.Row() < 5
  {
    var list := new ModelPartList("PartsList");
    root := list.rootItem;
    depth := list.Depth;
    for i := 0 to 3
      invariant IsTree(root, depth) && |depth| == 1 + 6 * i
      invariant root.itemData == Header && |root.children| == i
      invariant forall k :: 0 <= k < i ==> |root.children[k].children| == 5
    {
      var top := new ModelPart.WithActor(TopLevelData(i), null);
      depth := AppendToTree(root, depth, root, top);
      depth := AppendItems(root, depth, top, i);
    }
    BottomRowsBelowFive(root, depth);
  }

  /** The five parts the start-up tree puts below top-level part `i`. */
  method AppendItems(root: ModelPart, ghost depth: map<ModelPart, nat>, top: ModelPart, i: nat)
      returns (ghost depth': map<ModelPart, nat>)
    requires i < 10 && IsTree(root, depth) && top in depth && top.children == []
    modifies top`children
    ensures IsTree(root, depth') && |depth'| == |depth| + 5 && |top.children| == 5
  {
    depth' := depth;
    for j := 0 to 5
      invariant IsTree(root, depth') && top in depth' && |depth'| == |depth| + j && |top.children| == j
    {
      var item := new ModelPart.WithActor(ItemData(i, j), null);
      depth' := AppendToTree(root, depth', top, item);
    }
  }

  /** In a tree whose top-level parts have five children each, every part two
      levels down sits in a row below 5. */
  lemma BottomRowsBelowFive(root: ModelPart, depth: map<ModelPart, nat>)
    requires IsTree(root, depth)
    requires forall i :: 0 <= i < |root.children| ==> |root.children[i].children| == 5
    ensures forall n :: n in depth && depth[n] == 2 ==> 0 <= n.Row() < 5
  {
    forall n | n in depth && depth[n] == 2
      ensures 0 <= n.Row() < 5
    {
      ChildAtOwnRow(root, depth, n);
      var p := n.parentItem;
      ChildAtOwnRow(root, depth, p);
      var g := p.parentItem;
      if g != root {
        ChildAtOwnRow(root, depth, g);
      }
      var k := p.Row();
      assert root.children[k] == p;
    }
  }

  /** A VR actor is a copy taken at call time, not a view of the part: the main
      window links the part's material and takes a VR actor; after the part is
      hidden, that actor still shows it. */
  method VRActorDoesNotFollow(part: ModelPart) returns (vr: Actor)
    requires part.actor != null
    modifies part`isVisible, part.actor
    ensures fresh(vr) && vr.visible
    ensures !part.Visible() && !part.actor.visible
  {
    part.LinkMaterial(part.actor);
    vr := part.GetVRActorMaterial();
    part.SetVisible(false);
  }
}
