/** The index adapter (`ModelPartList`) that shows the part tree in a Qt tree view.
    It translates (row, column, parent index) triples into parts and back. The
    root part is not shown: its four column values are the column headers. */
module ModelPartLists {
  import opened Values
  import opened ModelParts

  /** The kinds of request a view makes; only two are ever answered. */
  datatype Role = DisplayRole | EditRole | OtherRole(code: int)

  datatype Orientation = Horizontal | Vertical

  datatype ItemFlag = ItemIsSelectable | ItemIsEditable | ItemIsEnabled

  /** A `QModelIndex`: either the default, invalid index, or one made by the model,
      which carries a row, a column and the part it points at. As in Qt, a made
      index with a negative row or column is still invalid. */
  datatype ModelIndex = Invalid | Idx(row: int, column: int, node: ModelPart) {
    predicate IsValid() {
      Idx? && row >= 0 && column >= 0
    }

    function Column(): int {
      if Idx? then column else -1
    }
  }

  /** The parts an index may point at. */
  function NodeOf(idx: ModelIndex): set<ModelPart> {
    if idx.Idx? then {idx.node} else {}
  }

  /** The column headers held by the root part. */
  const Header := [Text("Part"), Text("Visible?"), Text("Shrink?"), Text("Clip?")]

  class ModelPartList {
    var rootItem: ModelPart
    /** The parts of the tree, each with its distance from the root. */
    ghost var Depth: map<ModelPart, nat>

    ghost function Repr(): set<ModelPart>
      reads this
    {
      Depth.Keys
    }

    ghost predicate Valid()
      reads this, Repr()
    {
      IsTree(rootItem, Depth) && |rootItem.itemData| == |Header|
    }

    /** `idx` points into this tree (or is the invalid index). */
    ghost predicate Holds(idx: ModelIndex)
      reads this
    {
      idx.Idx? ==> idx.node in Repr()
    }

    /** Creates the root part holding the four column headers. The header text the
        caller passes is not used. */
    constructor (data: string)
      ensures Valid() && fresh(rootItem) && Repr() == {rootItem}
      ensures rootItem.itemData == Header && rootItem.children == []
    {
      rootItem := new ModelPart(Header, null);
      Depth := map[rootItem := 0];
    }

    /** The number of columns, the same under every parent: the root's column count. */
    function ColumnCount(parent: ModelIndex): (n: int)
      reads this, rootItem
      ensures n == |rootItem.itemData|
    {
      rootItem.ColumnCount()
    }

    /** The number of rows under `parent`: none beyond the first column, the
        top-level parts for an invalid parent, otherwise the part's children. */
    function RowCount(parent: ModelIndex): (n: int)
      reads this, rootItem, NodeOf(parent)
      ensures n >= 0
      ensures parent.Column() > 0 ==> n == 0
      ensures parent.Column() <= 0 && !parent.IsValid() ==> n == |rootItem.children|
      ensures parent.Column() <= 0 && parent.IsValid() ==> n == |parent.node.children|
    {
      if parent.Column() > 0 then 0
      else if !parent.IsValid() then rootItem.ChildCount()
      else parent.node.ChildCount()
    }

    /** Qt's `hasIndex`: both coordinates non-negative and within the parent's row
        and column counts. */
    function HasIndex(row: int, column: int, parent: ModelIndex): bool
      reads this, rootItem, NodeOf(parent)
    {
      0 <= row && 0 <= column && row < RowCount(parent) && column < ColumnCount(parent)
    }

    /** The part under whose children `index` looks: the indexed part, or the root
        when the parent index is invalid or does not admit (row, column). */
    function IndexParent(row: int, column: int, parent: ModelIndex): ModelPart
      reads this, rootItem, NodeOf(parent)
    {
      if !parent.IsValid() || !HasIndex(row, column, parent) then rootItem else parent.node
    }

    /** The index of child `row` in `column` below `parent`, as written: when
        `hasIndex` fails the lookup falls back to the root's children (see
        `IndexFallsBackToRoot`). */
    function Index(row: int, column: int, parent: ModelIndex): (r: ModelIndex)
      reads this, rootItem, NodeOf(parent)
      ensures r.Idx? ==> r.row == row && r.column == column
      ensures HasIndex(row, column, parent) ==>
                r.IsValid() && r.node == (if parent.IsValid() then parent.node else rootItem).children[row]
      ensures !parent.IsValid() ==> (r.Idx? <==> 0 <= row < |rootItem.children|)
      ensures !HasIndex(row, column, parent) ==>
                (r.Idx? <==> 0 <= row < |rootItem.children|) && (r.Idx? ==> r.node == rootItem.children[row])
    {
      var p := IndexParent(row, column, parent);
      var c := p.Child(row);
      if c != null then Idx(row, column, c) else Invalid
    }

    /** The index as intended: invalid unless `hasIndex` admits (row, column). */
    function CheckedIndex(row: int, column: int, parent: ModelIndex): (r: ModelIndex)
      reads this, rootItem, NodeOf(parent)
      ensures r.IsValid() <==> HasIndex(row, column, parent)
      ensures r.IsValid() ==> r.row == row && r.column == column
      ensures r.IsValid() ==> r.node == (if parent.IsValid() then parent.node else rootItem).children[row]
      ensures !r.IsValid() ==> r == Invalid
    {
      if HasIndex(row, column, parent) then Index(row, column, parent) else Invalid
    }

    /** The index of the parent of the part `idx` points at: invalid for an invalid
        index and for top-level parts, otherwise the parent's own row in column 0.
        The source dereferences the parent pointer, so `idx` must not point at the
        root. */
    function Parent(idx: ModelIndex): (r: ModelIndex)
      requires Valid() && Holds(idx)
      requires idx.IsValid() ==> idx.node != rootItem
      reads this, Repr()
      ensures !idx.IsValid() ==> r == Invalid
      ensures idx.IsValid() && idx.node.parentItem == rootItem ==> r == Invalid
      ensures idx.IsValid() && idx.node.parentItem != rootItem ==>
                && r.IsValid() && r.column == 0 && r.node == idx.node.parentItem && r.node in Repr()
                && r.node.parentItem != null && r.row < |r.node.parentItem.children|
                && r.node.parentItem.children[r.row] == r.node
    {
      if !idx.IsValid() then Invalid
      else
        ChildAtOwnRow(rootItem, Depth, idx.node);
        var p := idx.node.parentItem;
        if p == rootItem then Invalid
        else
          ChildAtOwnRow(rootItem, Depth, p);
          Idx(p.Row(), 0, p)
    }

    /** What the view displays: the part's value in the index's column, and
        nothing for an invalid index or any role but display. */
    function Data(idx: ModelIndex, role: Role): (v: Value)
      reads this, NodeOf(idx)
      ensures v != Null ==> idx.IsValid() && role == DisplayRole && 0 <= idx.column < |idx.node.itemData|
      ensures idx.IsValid() && role == DisplayRole && 0 <= idx.column < |idx.node.itemData| ==>
                v == idx.node.itemData[idx.column]
    {
      if !idx.IsValid() then Null
      else if role != DisplayRole then Null
      else idx.node.Data(idx.column)
    }

    /** Item flags: none for an invalid index, otherwise the library default
        (selectable and enabled, not editable). */
    function Flags(idx: ModelIndex): (f: set<ItemFlag>)
      ensures f == {} <==> !idx.IsValid()
      ensures ItemIsEditable !in f
    {
      if !idx.IsValid() then {} else {ItemIsSelectable, ItemIsEnabled}
    }

    /** Column headers: the root's value for `section`, only for the horizontal
        header and the display role. */
    function HeaderData(section: int, orientation: Orientation, role: Role): (v: Value)
      reads this, rootItem
      ensures v != Null ==> orientation == Horizontal && role == DisplayRole && 0 <= section < |rootItem.itemData|
      ensures orientation == Horizontal && role == DisplayRole && 0 <= section < |rootItem.itemData| ==>
                v == rootItem.itemData[section]
    {
      if orientation == Horizontal && role == DisplayRole then rootItem.Data(section) else Null
    }

    /** The part a new child is added under: the indexed part, or the root. */
    function AppendTarget(parent: ModelIndex): ModelPart
      reads this
    {
      if parent.IsValid() then parent.node else rootItem
    }

    /** Adds one new part holding `data` as the last child of the indexed part (of
        the root for an invalid index). Returns the caller's index as the source
        leaves it (overwritten with an index of the root when it was invalid) and an
        index of the new part, whose row is always 0. */
    method AppendChild(parent: ModelIndex, data: seq<Value>) returns (parentOut: ModelIndex, child: ModelIndex)
      requires Valid() && Holds(parent)
      modifies this, AppendTarget(parent)`children
      ensures Valid() && rootItem == old(rootItem)
      ensures parentOut == if parent.IsValid() then parent else Idx(0, 0, rootItem)
      ensures child.Idx? && child.row == 0 && child.column == 0 && fresh(child.node)
      ensures Repr() == old(Repr()) + {child.node}
      ensures child.node.parentItem == old(AppendTarget(parent))
      ensures child.node.children == [] && child.node.itemData == data
      ensures old(AppendTarget(parent)).children == old(AppendTarget(parent).children) + [child.node]
      ensures child.node.Row() == |old(AppendTarget(parent).children)|
    {
      var parentPart: ModelPart;
      if parent.IsValid() {
        parentPart := parent.node;
        parentOut := parent;
      } else {
        parentPart := rootItem;
        parentOut := Idx(0, 0, rootItem);
      }
      var childPart := new ModelPart(data, parentPart);
      Depth := AppendToTree(rootItem, Depth, parentPart, childPart);
      child := Idx(0, 0, childPart);
    }

    /** Edits the indexed part's value in the index's column. Fails for an invalid
        index, for any role but edit, and for a column the part does not have; only
        that one value ever changes. */
    method SetData(idx: ModelIndex, value: Value, role: Role) returns (ok: bool)
      requires Valid() && Holds(idx)
      modifies NodeOf(idx)`itemData
      ensures Valid()
      ensures ok <==> idx.IsValid() && role == EditRole && 0 <= idx.column < |old(idx.node.itemData)|
      ensures idx.Idx? ==> idx.node.itemData == if ok then old(idx.node.itemData)[idx.column := value]
                                                else old(idx.node.itemData)
    {
      if !idx.IsValid() || role != EditRole {
        return false;
      }
      var item := idx.node;
      ok := item.SetData(idx.column, value);
    }

    /** The index `parent()` builds for a part: its row in its parent, column 0. */
    function NodeIndex(n: ModelPart): (r: ModelIndex)
      reads n, n.parentItem
      ensures r.Idx? && r.node == n && r.row == n.Row() && r.column == 0
    {
      Idx(n.Row(), 0, n)
    }

    /** Every column count is the header's: four, whatever the parent. */
    lemma ColumnCountIsHeader(parent: ModelIndex)
      requires Valid()
      ensures ColumnCount(parent) == |Header| == 4
    {
    }

    /** `parent` undoes `CheckedIndex`: looking up a row and column below a parent
        index (the invalid one for the top level, otherwise the one `parent` itself
        builds) gives a valid index whose parent is that same parent index. */
    lemma ParentOfCheckedIndex(row: int, column: int, parent: ModelIndex)
      requires Valid() && Holds(parent)
      requires parent == Invalid || (parent.node != rootItem && parent == NodeIndex(parent.node))
      requires HasIndex(row, column, parent)
      ensures var r := CheckedIndex(row, column, parent);
              && r.IsValid() && r.node in Repr() && r.node != rootItem
              && Parent(r) == parent
    {
      var r := CheckedIndex(row, column, parent);
      var p := if parent.IsValid() then parent.node else rootItem;
      assert r.node == p.children[row];
      assert r.node.parentItem == p && r.node in Repr();
      assert Depth[r.node] == Depth[p] + 1;
      if parent != Invalid {
        ChildAtOwnRow(rootItem, Depth, parent.node);
      }
    }

    /** Conversely, every part of the tree below the root is reached by
        `CheckedIndex` from its own row, any column in range, and the index of its
        parent. */
    lemma CheckedIndexOfParent(n: ModelPart, column: int)
      requires Valid() && n in Repr() && n != rootItem
      requires 0 <= column < ColumnCount(Invalid)
      ensures Parent(NodeIndex(n)) == Invalid || Parent(NodeIndex(n)) == NodeIndex(n.parentItem)
      ensures CheckedIndex(n.Row(), column, Parent(NodeIndex(n))) == Idx(n.Row(), column, n)
    {
      ChildAtOwnRow(rootItem, Depth, n);
      var p := n.parentItem;
      if p != rootItem {
        ChildAtOwnRow(rootItem, Depth, p);
      }
    }

    /** As written, `index` answers a row that a valid parent does not have with a
        row of the root: asking a childless top-level part for its first child
        yields the part itself. `CheckedIndex` answers the invalid index there. */
    lemma IndexFallsBackToRoot(top: ModelPart)
      requires Valid() && |rootItem.children| > 0 && top == rootItem.children[0] && top.children == []
      ensures var p := NodeIndex(top);
              && p == Idx(0, 0, top)
              && Index(0, 0, p) == p
              && CheckedIndex(0, 0, p) == Invalid
    {
      ChildAtOwnRow(rootItem, Depth, top);
    }
  }
}
