/** Layout of native objects, and the headers and offset tables written into raw memory. */
module ObjectLayout {
  import opened RowMajor

  const WORD: nat := 8

  /** `size` is the size of one primitive value in bytes. */
  datatype Description =
    | ScalarDescription(size: nat)
    | ArrayDescription(size: nat, shape: seq<nat>)
    | StructDescription(members: seq<Description>)

  // abi_info

  const ALIGNMENT: nat := 32

  datatype ArrayLayout = ArrayLayout(size: nat, shapeOffset: nat, shapeSize: nat, dataOffset: nat, dataSize: nat)

  function Elements(shape: seq<nat>): (n: nat)
    decreases |shape|
  {
    if shape == [] then 1 else Elements(shape[..|shape| - 1]) * shape[|shape| - 1]
  }

  /** The paddings are never empty: a multiple of the alignment is padded by a whole one. */
  function GetArrayLayout(size: nat, shape: seq<nat>): (r: ArrayLayout)
    ensures r.shapeOffset % ALIGNMENT == 0 && r.dataOffset % ALIGNMENT == 0
    ensures r.shapeSize == |shape| * WORD && r.dataSize == Elements(shape) * size
    ensures WORD < r.shapeOffset && r.shapeOffset + r.shapeSize < r.dataOffset && r.dataOffset + r.dataSize == r.size
  {
    var shapeSize, dataSize := |shape| * WORD, Elements(shape) * size;
    var shapePadding := ALIGNMENT - WORD % ALIGNMENT;
    var beforeData := WORD + shapePadding + shapeSize;
    var dataPadding := ALIGNMENT - beforeData % ALIGNMENT;
    ArrayLayout(beforeData + dataPadding + dataSize, WORD + shapePadding, shapeSize,
                WORD + shapePadding + shapeSize + dataPadding, dataSize)
  }

  /** Rank and extents come first, the elements right behind them; element `index` lies inside the
      block, behind the header. */
  lemma ElementFits(size: nat, shape: seq<nat>, index: seq<int>)
    requires InRange(shape, index)
    ensures var start := (1 + |shape|) * WORD + Linear(shape, index) * size;
            (1 + |shape|) * WORD <= start && start + size <= GetArrayLayout(size, shape).size
  {
    hide GetArrayLayout, Elements, Linear, Product, InRange;
    assert Positive(shape) by { RangeIsPositive(shape, index); }
    LinearInRange(shape, index);
    ElementsIsProduct(shape);
    var l, n := Linear(shape, index), Elements(shape);
    assert (l + 1) * size <= n * size;
    assert l * size + size == (l + 1) * size;
  }

  lemma RangeIsPositive(shape: seq<nat>, index: seq<int>)
    requires InRange(shape, index)
    ensures Positive(shape)
  {
    forall k | 0 <= k < |shape|
      ensures shape[k] > 0
    {
      assert 0 <= index[k] < shape[k];
    }
  }

  lemma {:induction false} ElementsIsProduct(shape: seq<nat>)
    ensures Elements(shape) == Product(shape)
    decreases |shape|
  {
    if shape != [] {
      ElementsIsProduct(shape[..|shape| - 1]);
    }
  }

  // compute_layout

  datatype Layout = Layout(description: Description, position: nat, size: nat, partitions: seq<Layout>)

  /** What a description takes up itself: a struct only has its table of offsets. */
  function OwnSize(d: Description): nat {
    match d
    case ScalarDescription(size) => size
    case ArrayDescription(size, shape) => GetArrayLayout(size, shape).size
    case StructDescription(members) => |members| * WORD
  }

  function TotalSize(d: Description): nat
    decreases d, 0
  {
    OwnSize(d) + (if d.StructDescription? then TotalSizes(d, |d.members|) else 0)
  }

  function TotalSizes(d: Description, n: nat): nat
    requires d.StructDescription? && n <= |d.members|
    decreases d, 0, n
  {
    if n == 0 then 0 else TotalSizes(d, n - 1) + TotalSize(d.members[n - 1])
  }

  function LayoutAt(d: Description, position: nat): (r: Layout)
    ensures r.description == d && r.position == position && r.size == OwnSize(d)
    decreases d, 1
  {
    Layout(d, position, OwnSize(d), if d.StructDescription? then Partitions(d, position, |d.members|) else [])
  }

  function Partitions(d: Description, position: nat, n: nat): (r: seq<Layout>)
    requires d.StructDescription? && n <= |d.members|
    ensures |r| == n
    decreases d, 0, n
  {
    if n == 0 then []
    else Partitions(d, position, n - 1) + [LayoutAt(d.members[n - 1], position + Offset(d, n - 1))]
  }

  /** Where member `k` starts, counted from the struct. */
  function Offset(d: Description, k: nat): nat
    requires d.StructDescription? && k <= |d.members|
  {
    OwnSize(d) + TotalSizes(d, k)
  }

  lemma {:induction false} PartitionAt(d: Description, position: nat, n: nat, k: nat)
    requires d.StructDescription? && k < n <= |d.members|
    ensures Partitions(d, position, n)[k] == LayoutAt(d.members[k], position + Offset(d, k))
    decreases n
  {
    hide LayoutAt, Offset;
    if k < n - 1 {
      PartitionAt(d, position, n - 1, k);
    }
  }

  /** The recursive pass, which advances the position. */
  method ComputeLayout(d: Description, currentPosition: nat) returns (layout: Layout, currentPosition': nat)
    ensures layout == LayoutAt(d, currentPosition) && currentPosition' == currentPosition + TotalSize(d)
    decreases d
  {
    match d
    case ArrayDescription(elementSize, shape) =>
      var size := GetArrayLayout(elementSize, shape).size;
      currentPosition' := currentPosition + size;
      layout := Layout(d, currentPosition, size, []);
    case ScalarDescription(size) =>
      currentPosition' := currentPosition + size;
      layout := Layout(d, currentPosition, size, []);
    case StructDescription(members) =>
      var size := |members| * WORD;
      currentPosition' := currentPosition + size;
      var partitions: seq<Layout> := [];
      for k := 0 to |members|
        invariant currentPosition' == currentPosition + OwnSize(d) + TotalSizes(d, k)
        invariant partitions == Partitions(d, currentPosition, k)
      {
        var partition;
        partition, currentPosition' := ComputeLayout(members[k], currentPosition');
        partitions := partitions + [partition];
      }
      layout := Layout(d, currentPosition, size, partitions);
  }

  /** All layouts of a tree, parents before their partitions. */
  function Blocks(layout: Layout): seq<Layout>
    decreases layout, 0
  {
    [layout] + BlocksOf(layout, |layout.partitions|)
  }

  function BlocksOf(layout: Layout, n: nat): seq<Layout>
    requires n <= |layout.partitions|
    decreases layout, 0, n
  {
    if n == 0 then [] else BlocksOf(layout, n - 1) + Blocks(layout.partitions[n - 1])
  }

  /** The blocks follow one another without gaps from `from` to `to`. */
  ghost predicate Tiles(blocks: seq<Layout>, from: nat, to: nat) {
    if blocks == [] then from == to else blocks[0].position == from && Tiles(blocks[1..], from + blocks[0].size, to)
  }

  lemma {:induction false} TilesConcat(a: seq<Layout>, b: seq<Layout>, from: nat, middle: nat, to: nat)
    requires Tiles(a, from, middle) && Tiles(b, middle, to)
    ensures Tiles(a + b, from, to)
  {
    if a == [] {
      assert a + b == b;
    } else {
      TilesConcat(a[1..], b, from + a[0].size, middle, to);
      assert (a + b)[1..] == a[1..] + b;
    }
  }

  /** The blocks of an object tile the range from its position to its end: they neither overlap nor
      leave gaps. */
  lemma {:induction false} LayoutTiles(d: Description, position: nat)
    ensures Tiles(Blocks(LayoutAt(d, position)), position, position + TotalSize(d))
    decreases d, 1
  {
    var layout := LayoutAt(d, position);
    var start := position + OwnSize(d);
    if d.StructDescription? {
      PartitionsTile(d, position, |d.members|);
    }
    assert Tiles([layout], position, start) by {
      assert [layout][1..] == [];
    }
    TilesConcat([layout], BlocksOf(layout, |layout.partitions|), position, start, position + TotalSize(d));
  }

  lemma {:induction false} PartitionsTile(d: Description, position: nat, n: nat)
    requires d.StructDescription? && n <= |d.members|
    ensures var start := position + OwnSize(d);
            Tiles(BlocksOf(LayoutAt(d, position), n), start, start + TotalSizes(d, n))
    decreases d, 0, n
  {
    if n > 0 {
      var start := position + OwnSize(d);
      PartitionsTile(d, position, n - 1);
      PartitionAt(d, position, |d.members|, n - 1);
      hide OwnSize, Tiles;
      LayoutTiles(d.members[n - 1], start + TotalSizes(d, n - 1));
      TilesConcat(BlocksOf(LayoutAt(d, position), n - 1), Blocks(LayoutAt(d, position).partitions[n - 1]),
                  start, start + TotalSizes(d, n - 1), start + TotalSizes(d, n));
    }
  }

  // Raw memory.

  /** A byte: the `part`-th one of some word. */
  datatype Cell = Cell(word: int, part: nat)

  /** The word at `address` is `w`: all its bytes are in place. */
  predicate HoldsWord(heap: seq<Cell>, address: nat, w: int) {
    address + WORD <= |heap| && forall k :: 0 <= k < WORD ==> heap[address + k] == Cell(w, k)
  }

  /** Reading a word whose bytes come from one write. */
  function WordAt(heap: seq<Cell>, address: nat): int
    requires address < |heap|
  {
    heap[address].word
  }

  method StoreWord(heap: array<Cell>, address: nat, w: int)
    requires address + WORD <= heap.Length
    modifies heap
    ensures HoldsWord(heap[..], address, w)
    ensures forall a :: 0 <= a < heap.Length && !(address <= a < address + WORD) ==> heap[a] == old(heap[a])
  {
    for k := 0 to WORD
      invariant forall a :: 0 <= a < k ==> heap[address + a] == Cell(w, a)
      invariant forall a :: 0 <= a < heap.Length && !(address <= a < address + WORD) ==> heap[a] == old(heap[a])
    {
      heap[address + k] := Cell(w, k);
    }
  }

  /** The header or the table of one object is in place, and so are those of its members. */
  ghost predicate Constructed(heap: seq<Cell>, d: Description, position: nat)
    decreases d, 1
  {
    match d
    case ScalarDescription(_) => true
    case ArrayDescription(_, shape) => HoldsWord(heap, position, |shape|) && HoldsWords(heap, position + WORD, shape, |shape|)
    case StructDescription(members) => HoldsTable(heap, d, position, |members|) && MembersConstructed(heap, d, position, |members|)
  }

  ghost predicate HoldsWords(heap: seq<Cell>, address: nat, words: seq<int>, n: nat)
    requires n <= |words|
  {
    forall k :: 0 <= k < n ==> HoldsWord(heap, address + k * WORD, words[k])
  }

  ghost predicate HoldsTable(heap: seq<Cell>, d: Description, position: nat, n: nat)
    requires d.StructDescription? && n <= |d.members|
  {
    forall k :: 0 <= k < n ==> HoldsWord(heap, position + k * WORD, Offset(d, k))
  }

  ghost predicate MembersConstructed(heap: seq<Cell>, d: Description, position: nat, n: nat)
    requires d.StructDescription? && n <= |d.members|
    decreases d, 0, n
  {
    n > 0 ==> MembersConstructed(heap, d, position, n - 1) && Constructed(heap, d.members[n - 1], position + Offset(d, n - 1))
  }

  ghost predicate SameIn(a: seq<Cell>, b: seq<Cell>, from: nat, to: nat) {
    |a| == |b| && forall k :: from <= k < to && k < |a| ==> a[k] == b[k]
  }

  lemma {:induction false} SizesGrow(d: Description, k: nat, n: nat)
    requires d.StructDescription? && k < n <= |d.members|
    ensures TotalSizes(d, k) + TotalSize(d.members[k]) <= TotalSizes(d, n)
  {
    if k < n - 1 {
      SizesGrow(d, k, n - 1);
    }
  }

  /** What is in place stays so as long as nothing is written to the range of the object. */
  lemma {:induction false} ConstructedStays(a: seq<Cell>, b: seq<Cell>, d: Description, position: nat)
    requires Constructed(a, d, position) && SameIn(a, b, position, position + TotalSize(d))
    ensures Constructed(b, d, position)
    decreases d, 1
  {
    match d
    case ScalarDescription(_) =>
    case ArrayDescription(_, shape) =>
      forall k | 0 <= k < |shape|
        ensures HoldsWord(b, position + WORD + k * WORD, shape[k])
      {
        assert HoldsWord(a, position + WORD + k * WORD, shape[k]);
      }
    case StructDescription(members) =>
      forall k | 0 <= k < |members|
        ensures HoldsWord(b, position + k * WORD, Offset(d, k))
      {
        assert HoldsWord(a, position + k * WORD, Offset(d, k));
      }
      MembersStay(a, b, d, position, |members|);
  }

  lemma {:induction false} MembersStay(a: seq<Cell>, b: seq<Cell>, d: Description, position: nat, n: nat)
    requires d.StructDescription? && n <= |d.members| && MembersConstructed(a, d, position, n)
    requires SameIn(a, b, position + OwnSize(d), position + Offset(d, n))
    ensures MembersConstructed(b, d, position, n)
    decreases d, 0, n
  {
    if n > 0 {
      MembersStay(a, b, d, position, n - 1);
      ConstructedStays(a, b, d.members[n - 1], position + Offset(d, n - 1));
    }
  }

  /** Nothing was written outside the range. */
  ghost predicate SameOutside(a: seq<Cell>, b: seq<Cell>, from: nat, to: nat) {
    |a| == |b| && forall k :: 0 <= k < |a| && !(from <= k < to) ==> a[k] == b[k]
  }

  lemma WordsStay(a: seq<Cell>, b: seq<Cell>, address: nat, w: int, from: nat, to: nat)
    requires HoldsWord(a, address, w) && SameOutside(a, b, from, to) && (address + WORD <= from || to <= address)
    ensures HoldsWord(b, address, w)
  {
  }

  /** Rank and extents of an array. */
  method WriteHeader(heap: array<Cell>, location: nat, shape: seq<nat>)
    requires location + (1 + |shape|) * WORD <= heap.Length
    modifies heap
    ensures HoldsWord(heap[..], location, |shape|) && HoldsWords(heap[..], location + WORD, shape, |shape|)
    ensures SameOutside(old(heap[..]), heap[..], location, location + (1 + |shape|) * WORD)
  {
    StoreWord(heap, location, |shape|);
    for i := 0 to |shape|
      invariant HoldsWord(heap[..], location, |shape|) && HoldsWords(heap[..], location + WORD, shape, i)
      invariant SameOutside(old(heap[..]), heap[..], location, location + (1 + i) * WORD)
    {
      ghost var before := heap[..];
      var address := location + WORD + i * WORD;
      StoreWord(heap, address, shape[i]);
      forall k | 0 <= k < i
        ensures HoldsWord(heap[..], location + WORD + k * WORD, shape[k])
      {
        WordsStay(before, heap[..], location + WORD + k * WORD, shape[k], address, address + WORD);
      }
      WordsStay(before, heap[..], location, |shape|, address, address + WORD);
    }
  }

  /** The table of offsets of a struct. */
  method WriteOffsets(heap: array<Cell>, layout: Layout)
    requires layout.description.StructDescription? && layout == LayoutAt(layout.description, layout.position)
    requires layout.position + OwnSize(layout.description) <= heap.Length
    modifies heap
    ensures HoldsTable(heap[..], layout.description, layout.position, |layout.description.members|)
    ensures SameOutside(old(heap[..]), heap[..], layout.position, layout.position + OwnSize(layout.description))
  {
    var location, d := layout.position, layout.description;
    for i := 0 to |layout.partitions|
      invariant HoldsTable(heap[..], d, location, i)
      invariant SameOutside(old(heap[..]), heap[..], location, location + i * WORD)
    {
      hide Offset;
      ghost var before := heap[..];
      PartitionAt(d, location, |d.members|, i);
      StoreWord(heap, location + i * WORD, layout.partitions[i].position - location);
      forall k | 0 <= k < i
        ensures HoldsWord(heap[..], location + k * WORD, Offset(d, k))
      {
        WordsStay(before, heap[..], location + k * WORD, Offset(d, k), location + i * WORD, location + i * WORD + WORD);
      }
    }
  }

  lemma TableStays(a: seq<Cell>, b: seq<Cell>, d: Description, position: nat, from: nat, to: nat)
    requires d.StructDescription? && HoldsTable(a, d, position, |d.members|)
    requires SameOutside(a, b, from, to) && position + OwnSize(d) <= from
    ensures HoldsTable(b, d, position, |d.members|)
  {
    hide Offset;
    forall k | 0 <= k < |d.members|
      ensures HoldsWord(b, position + k * WORD, Offset(d, k))
    {
      WordsStay(a, b, position + k * WORD, Offset(d, k), from, to);
    }
  }

  /** Writes rank and extents, or the table of offsets and then the members, into raw memory.
      Nothing outside the range of the object is written, and no header or table is overwritten. */
  method ConstructObject(heap: array<Cell>, layout: Layout)
    requires layout == LayoutAt(layout.description, layout.position)
    requires layout.position + TotalSize(layout.description) <= heap.Length
    modifies heap
    ensures Constructed(heap[..], layout.description, layout.position)
    ensures SameOutside(old(heap[..]), heap[..], layout.position, layout.position + TotalSize(layout.description))
    decreases layout.description
  {
    hide HoldsWord, HoldsTable, HoldsWords, GetArrayLayout;
    var location, d := layout.position, layout.description;
    match d
    case ScalarDescription(_) =>
    case ArrayDescription(size, shape) =>
      HeaderFits(size, shape);
      WriteHeader(heap, location, shape);
    case StructDescription(members) =>
      WriteOffsets(heap, layout);
      for i := 0 to |members|
        invariant HoldsTable(heap[..], d, location, |members|) && MembersConstructed(heap[..], d, location, i)
        invariant SameOutside(old(heap[..]), heap[..], location, location + Offset(d, i))
      {
        ghost var before := heap[..];
        SizesGrow(d, i, |members|);
        PartitionAt(d, location, |members|, i);
        ConstructObject(heap, layout.partitions[i]);
        TableStays(before, heap[..], d, location, location + Offset(d, i), location + Offset(d, i + 1));
        MembersStay(before, heap[..], d, location, i);
      }
  }

  lemma HeaderFits(size: nat, shape: seq<nat>)
    ensures (1 + |shape|) * WORD <= GetArrayLayout(size, shape).size
  {
    hide GetArrayLayout;
  }

  // Member access in generated code.

  /** A member of a member and so on. */
  predicate IsPath(d: Description, path: seq<nat>)
    decreases path
  {
    path == [] || (d.StructDescription? && path[0] < |d.members| && IsPath(d.members[path[0]], path[1..]))
  }

  function Member(d: Description, path: seq<nat>): Description
    requires IsPath(d, path)
    decreases path
  {
    if path == [] then d else Member(d.members[path[0]], path[1..])
  }

  /** The position that the layout gives to the end of the path. */
  function PositionOf(layout: Layout, path: seq<nat>): nat
    requires layout == LayoutAt(layout.description, layout.position) && IsPath(layout.description, path)
    decreases path
  {
    if path == [] then layout.position
    else
      PartitionAt(layout.description, layout.position, |layout.description.members|, path[0]);
      PositionOf(layout.partitions[path[0]], path[1..])
  }

  /** Loads the offset of the member from the table and adds it to the address of the struct. */
  function Follow(heap: seq<Cell>, address: int, path: seq<nat>): int
    decreases path
  {
    if path == [] then address
    else if 0 <= address + path[0] * WORD < |heap| then
      Follow(heap, address + WordAt(heap, address + path[0] * WORD), path[1..])
    else -1
  }

  lemma {:induction false} MemberIsConstructed(heap: seq<Cell>, d: Description, position: nat, n: nat, k: nat)
    requires d.StructDescription? && k < n <= |d.members| && MembersConstructed(heap, d, position, n)
    ensures Constructed(heap, d.members[k], position + Offset(d, k))
    decreases n
  {
    if k < n - 1 {
      MemberIsConstructed(heap, d, position, n - 1, k);
    }
  }

  /** Following the stored offsets along any path of members arrives exactly where the layout has
      put the last one, and its own header or table is there. */
  lemma {:induction false} FollowReaches(heap: seq<Cell>, layout: Layout, path: seq<nat>)
    requires layout == LayoutAt(layout.description, layout.position)
    requires Constructed(heap, layout.description, layout.position) && IsPath(layout.description, path)
    ensures Follow(heap, layout.position, path) == PositionOf(layout, path)
    ensures Constructed(heap, Member(layout.description, path), PositionOf(layout, path))
    decreases path
  {
    if path != [] {
      var d, k := layout.description, path[0];
      assert HoldsWord(heap, layout.position + k * WORD, Offset(d, k));
      assert heap[layout.position + k * WORD + 0] == Cell(Offset(d, k), 0);
      MemberIsConstructed(heap, d, layout.position, |d.members|, k);
      PartitionAt(d, layout.position, |d.members|, k);
      hide LayoutAt, TotalSizes, OwnSize;
      FollowReaches(heap, layout.partitions[k], path[1..]);
    }
  }

  // The size of the allocated page.

  /** Primitive values take up space. */
  predicate Sized(d: Description) {
    match d
    case ScalarDescription(size) => size > 0
    case ArrayDescription(size, _) => size > 0
    case StructDescription(members) => forall k :: 0 <= k < |members| ==> Sized(members[k])
  }

  lemma {:induction false} EmptyTotals(d: Description, n: nat)
    requires d.StructDescription? && n <= |d.members| && Sized(d)
    ensures TotalSizes(d, n) == 0 <==> forall k :: 0 <= k < n ==> d.members[k] == StructDescription([])
  {
    if n > 0 {
      EmptyTotals(d, n - 1);
      var m := d.members[n - 1];
      assert TotalSize(m) == 0 <==> m == StructDescription([]);
    }
  }

  /** `create_native_object` allocates a page of the size of the root alone.  This holds the whole
      object exactly if the root is no struct or its members are structs without members. */
  lemma PageHoldsObject(d: Description)
    requires Sized(d)
    ensures LayoutAt(d, 0).size >= TotalSize(d) <==>
            (d.StructDescription? ==> forall k :: 0 <= k < |d.members| ==> d.members[k] == StructDescription([]))
  {
    if d.StructDescription? {
      EmptyTotals(d, |d.members|);
    }
  }

  /** A sparse tensor's `data` member, for example: its tables lie outside the page. */
  lemma PageTooSmall()
    ensures var vector := ArrayDescription(8, [2]);
            var layout := LayoutAt(StructDescription([vector]), 0);
            layout.size == 8 && layout.partitions[0].position == 8
  {
    var d := StructDescription([ArrayDescription(8, [2])]);
    assert TotalSizes(d, 0) == 0 && |Partitions(d, 0, 1)| == 1;
  }
}
