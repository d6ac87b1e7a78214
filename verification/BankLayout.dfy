/** Where the planner puts things: dense entries, expert records and page-packed rows. */
module BankLayout {
  import opened Collections
  import opened Matrices
  import opened SectionLayout

  const PAGE_BYTES := 4096
  const DENSE_ENTRY_ALIGNMENT := 64
  const EXPERT_BATCH_ITEMS := 64

  // ---------------------------------------------------------------- dense entries

  /** The cursor before entry `i`. */
  function DenseOffset(lengths: seq<nat>, i: nat): nat
    requires i <= |lengths|
  {
    if i == 0 then 0 else AlignUp(DenseOffset(lengths, i - 1) + lengths[i - 1], DENSE_ENTRY_ALIGNMENT)
  }

  /** The planner's cursor loop. */
  method PlanDense(lengths: seq<nat>) returns (offsets: seq<nat>, total: nat)
    ensures |offsets| == |lengths| && forall i :: 0 <= i < |offsets| ==> offsets[i] == DenseOffset(lengths, i)
    ensures total == DenseOffset(lengths, |lengths|)
  {
    offsets := [];
    var cursor: nat := 0;
    for i := 0 to |lengths|
      invariant |offsets| == i && forall k :: 0 <= k < i ==> offsets[k] == DenseOffset(lengths, k)
      invariant cursor == DenseOffset(lengths, i)
    {
      offsets := offsets + [cursor];
      cursor := AlignUp(cursor + lengths[i], DENSE_ENTRY_ALIGNMENT);
    }
    total := cursor;
  }

  /** The first entry is at the start, and each next one at the least multiple of 64 past the one before. */
  lemma DenseIsTight(lengths: seq<nat>, i: nat)
    requires i < |lengths|
    ensures DenseOffset(lengths, 0) == 0
    ensures
      var end := DenseOffset(lengths, i) + lengths[i];
      end <= DenseOffset(lengths, i + 1) < end + 64 && DenseOffset(lengths, i + 1) % 64 == 0
  {
    AlignUpIsLeast(DenseOffset(lengths, i) + lengths[i], DENSE_ENTRY_ALIGNMENT);
  }

  /** Entries are aligned, in order, and end before any later one begins. */
  lemma {:induction false} DenseIsOrdered(lengths: seq<nat>, i: nat, j: nat)
    requires i < j <= |lengths|
    ensures DenseOffset(lengths, i) + lengths[i] <= DenseOffset(lengths, j)
    ensures DenseOffset(lengths, i) % DENSE_ENTRY_ALIGNMENT == 0
    decreases j
  {
    hide AlignUp;
    AlignUpIsLeast(DenseOffset(lengths, j - 1) + lengths[j - 1], DENSE_ENTRY_ALIGNMENT);
    if i > 0 {
      AlignUpIsLeast(DenseOffset(lengths, i - 1) + lengths[i - 1], DENSE_ENTRY_ALIGNMENT);
    }
    if i < j - 1 {
      DenseIsOrdered(lengths, i, j - 1);
    }
  }

  // ---------------------------------------------------------------- expert records

  /** A record: each projection follows the one before; records are pitched at whole pages. */
  datatype RecordLayout = RecordLayout(offsets: seq<nat>, payloadBytes: nat, stride: nat)

  method BuildRecord(lengths: seq<nat>, alignment: int) returns (record: RecordLayout)
    ensures |record.offsets| == |lengths|
    ensures forall i :: 0 <= i < |lengths| ==> record.offsets[i] == Sum(lengths[..i])
    ensures record.payloadBytes == Sum(lengths) && record.stride == AlignUp(Sum(lengths), alignment)
  {
    var offsets: seq<nat> := [];
    var cursor: nat := 0;
    for i := 0 to |lengths|
      invariant |offsets| == i && forall k :: 0 <= k < i ==> offsets[k] == Sum(lengths[..k])
      invariant cursor == Sum(lengths[..i])
    {
      offsets := offsets + [cursor];
      assert lengths[..i + 1][..i] == lengths[..i];
      cursor := cursor + lengths[i];
    }
    assert lengths[..|lengths|] == lengths;
    record := RecordLayout(offsets, cursor, AlignUp(cursor, alignment));
  }

  /** Projections tile the payload in order. */
  lemma {:induction false} ProjectionsAreApart(lengths: seq<nat>, i: nat, j: nat)
    requires i < j <= |lengths|
    ensures Sum(lengths[..i]) + lengths[i] <= Sum(lengths[..j]) <= Sum(lengths)
    ensures Sum(lengths[..i + 1]) == Sum(lengths[..i]) + lengths[i]
    decreases |lengths| + j
  {
    assert lengths[..i + 1][..i] == lengths[..i];
    assert lengths[..j][..j - 1] == lengths[..j - 1];
    if i < j - 1 {
      ProjectionsAreApart(lengths, i, j - 1);
    }
    SumOfPrefix(lengths, j);
  }

  /** `layers.index(layer)`. */
  function IndexOf(layers: seq<int>, layer: int): Option<nat> {
    if layers == [] then None
    else if layers[0] == layer then Some(0)
    else match IndexOf(layers[1..], layer) case None => None case Some(i) => Some(i + 1)
  }

  lemma {:induction false} IndexOfFinds(layers: seq<int>, layer: int)
    ensures IndexOf(layers, layer).Some? <==> layer in layers
    ensures IndexOf(layers, layer).Some? ==>
      IndexOf(layers, layer).value < |layers| && layers[IndexOf(layers, layer).value] == layer
  {
    if layers != [] {
      IndexOfFinds(layers[1..], layer);
      assert layers == [layers[0]] + layers[1..];
    }
  }

  /** Bank slot of an expert in a full package; nothing when the package lacks it. */
  function RecordIndex(layers: seq<int>, numExperts: nat, layer: int, expert: int): Option<nat> {
    match IndexOf(layers, layer)
    case None => None
    case Some(position) => if 0 <= expert < numExperts then Some(FlatIndex(position, numExperts, expert)) else None
  }

  /** Layer and expert pairs biject with bank slots. */
  lemma RecordsBiject(layers: seq<int>, numExperts: nat, index: nat)
    requires Distinct(layers) && index < Area(|layers|, numExperts)
    ensures index / numExperts < |layers|
    ensures RecordIndex(layers, numExperts, layers[index / numExperts], index % numExperts) == Some(index)
    ensures forall layer, expert :: RecordIndex(layers, numExperts, layer, expert) == Some(index) ==>
      layer == layers[index / numExperts] && expert == index % numExperts
  {
    QuotientBelow(index, numExperts, |layers|);
    JoinIndex(index, numExperts);
    var layer := layers[index / numExperts];
    IndexOfFinds(layers, layer);
    forall other, expert | RecordIndex(layers, numExperts, other, expert) == Some(index)
      ensures other == layer && expert == index % numExperts
    {
      IndexOfFinds(layers, other);
      SplitIndex(IndexOf(layers, other).value, expert, numExperts);
    }
  }

  lemma RecordIndexInBank(layers: seq<int>, numExperts: nat, layer: int, expert: int)
    ensures RecordIndex(layers, numExperts, layer, expert).Some? <==> layer in layers && 0 <= expert < numExperts
    ensures RecordIndex(layers, numExperts, layer, expert).Some? ==>
      RecordIndex(layers, numExperts, layer, expert).value < Area(|layers|, numExperts)
  {
    IndexOfFinds(layers, layer);
    if layer in layers && 0 <= expert < numExperts {
      RowFits(IndexOf(layers, layer).value, |layers|, expert, numExperts);
    }
  }

  /** Records never overlap and stay inside the bank. */
  lemma RecordsAreApart(stride: nat, payload: nat, i: nat, j: nat, records: nat)
    requires payload <= stride && i < j <= records
    ensures Area(i, stride) + payload <= Area(j, stride) <= Area(records, stride)
  {
    MulMonotone(i + 1, j, stride);
    MulMonotone(j, records, stride);
    assert (i + 1) * stride == i * stride + stride;
  }

  // ---------------------------------------------------------------- page-packed rows

  datatype RowLayout = RowLayout(payloadBytes: nat, rowsPerPage: nat, pageBytes: nat)

  /** `PleRowLayout.build`: whole rows to a page, or an aligned run of pages for one row; an empty
      row divides by zero. */
  function BuildRow(payload: nat): Option<RowLayout> {
    if payload == 0 then None
    else if payload > PAGE_BYTES then Some(RowLayout(payload, 1, AlignUp(payload, PAGE_BYTES)))
    else Some(RowLayout(payload, if PAGE_BYTES / payload < 1 then 1 else PAGE_BYTES / payload, PAGE_BYTES))
  }

  ghost predicate IsRowLayout(row: RowLayout) {
    row.payloadBytes > 0 && row.rowsPerPage > 0 && Area(row.rowsPerPage, row.payloadBytes) <= row.pageBytes
  }

  /** The rows of a page of 4096 bytes fit in it, and no further row would; a larger row has the fewest
      pages that hold it to itself. */
  lemma BuiltRowsFit(payload: nat)
    requires payload > 0
    ensures
      var row := BuildRow(payload).value;
      if payload <= 4096 then row.pageBytes == 4096
      else row.rowsPerPage == 1 && row.pageBytes % 4096 == 0 && payload <= row.pageBytes < payload + 4096
    ensures IsRowLayout(BuildRow(payload).value) && BuildRow(payload).value.payloadBytes == payload
    ensures Area(BuildRow(payload).value.rowsPerPage + 1, payload) > PAGE_BYTES
  {
    if payload > PAGE_BYTES {
      AlignUpIsLeast(payload, PAGE_BYTES);
    } else {
      JoinIndex(PAGE_BYTES, payload);
      var rows := PAGE_BYTES / payload;
      assert (rows + 1) * payload == rows * payload + payload;
    }
  }

  function RowOffset(row: RowLayout, id: nat): nat
    requires row.rowsPerPage > 0
  {
    Area(id / row.rowsPerPage, row.pageBytes) + Area(id % row.rowsPerPage, row.payloadBytes)
  }

  /** The first row of each page starts it, and every other row starts where the one before ends. */
  lemma RowFollows(row: RowLayout, page: nat, slot: nat)
    requires IsRowLayout(row) && slot < row.rowsPerPage
    ensures
      var id := Area(page, row.rowsPerPage) + slot;
      RowOffset(row, id) ==
        if slot == 0 then Area(page, row.pageBytes) else RowOffset(row, id - 1) + row.payloadBytes
  {
    SplitIndex(page, slot, row.rowsPerPage);
    if slot > 0 {
      SplitIndex(page, slot - 1, row.rowsPerPage);
      assert slot * row.payloadBytes == (slot - 1) * row.payloadBytes + row.payloadBytes;
    }
  }

  function BytesFor(row: RowLayout, rows: nat): nat
    requires row.rowsPerPage > 0
  {
    Area((rows + row.rowsPerPage - 1) / row.rowsPerPage, row.pageBytes)
  }

  /** A row lies inside its page run. */
  lemma RowStaysInPage(row: RowLayout, id: nat)
    requires IsRowLayout(row)
    ensures
      var page := id / row.rowsPerPage;
      && Area(page, row.pageBytes) <= RowOffset(row, id)
      && RowOffset(row, id) + row.payloadBytes <= Area(page + 1, row.pageBytes)
  {
    var slot := id % row.rowsPerPage;
    MulMonotone(slot + 1, row.rowsPerPage, row.payloadBytes);
    assert (slot + 1) * row.payloadBytes == slot * row.payloadBytes + row.payloadBytes;
    assert (id / row.rowsPerPage + 1) * row.pageBytes == id / row.rowsPerPage * row.pageBytes + row.pageBytes;
  }

  /** Rows never overlap, and stay inside the table. */
  lemma RowsAreApart(row: RowLayout, i: nat, j: nat)
    requires IsRowLayout(row) && i < j
    ensures RowOffset(row, i) + row.payloadBytes <= RowOffset(row, j)
  {
    var per := row.rowsPerPage;
    JoinIndex(i, per);
    JoinIndex(j, per);
    RowStaysInPage(row, i);
    RowStaysInPage(row, j);
    DivMonotone(i, j, per);
    if i / per < j / per {
      MulMonotone(i / per + 1, j / per, row.pageBytes);
    } else {
      assert i % per < j % per;
      MulMonotone(i % per + 1, j % per, row.payloadBytes);
      assert (i % per + 1) * row.payloadBytes == i % per * row.payloadBytes + row.payloadBytes;
    }
  }

  /** The table ends with the page of its last row. */
  lemma TableEnds(row: RowLayout, rows: nat)
    requires row.rowsPerPage > 0
    ensures BytesFor(row, rows) == if rows == 0 then 0 else Area((rows - 1) / row.rowsPerPage + 1, row.pageBytes)
  {
    var per := row.rowsPerPage;
    if rows == 0 {
      SplitIndex(0, per - 1, per);
    } else {
      var q, m := (rows - 1) / per, (rows - 1) % per;
      JoinIndex(rows - 1, per);
      assert rows + per - 1 == (q + 1) * per + m by {
        assert (q + 1) * per == q * per + per;
      }
      SplitIndex(q + 1, m, per);
    }
  }

  lemma RowInTable(row: RowLayout, id: nat, rows: nat)
    requires IsRowLayout(row) && id < rows
    ensures RowOffset(row, id) + row.payloadBytes <= BytesFor(row, rows)
  {
    var per := row.rowsPerPage;
    RowStaysInPage(row, id);
    DivMonotone(id + per, rows + per - 1, per);
    JoinIndex(id, per);
    SplitIndex(id / per + 1, id % per, per);
    assert (id / per + 1) * per + id % per == id + per;
    MulMonotone(id / per + 1, (rows + per - 1) / per, row.pageBytes);
  }

  // ---------------------------------------------------------------- fused source banks

  /** A tensor of a source shard; the index counts its parameters from its shape. */
  datatype TensorAddress = TensorAddress(shape: seq<nat>, byteStart: nat, sizeBytes: nat, numParams: nat) {
    ghost predicate Valid() {
      numParams == if shape == [] then 0 else Product(shape)
    }

    /** The parameters of one slice along the leading axis, times the bytes of one. */
    function SliceBytes(): real
      requires shape != [] && numParams > 0
    {
      Product(shape[1..]) as real * (sizeBytes as real / numParams as real)
    }
  }

  /** `slice_expert_from_bank`: the byte range of one expert, or a slice error. */
  function ExpertSlice(address: TensorAddress, expert: int, numExperts: int, round: real -> int): Option<(int, int)> {
    if |address.shape| < 2 then None
    else if address.shape[0] != numExperts then None
    else if !(0 <= expert < numExperts) then None
    else if address.numParams <= 0 then None
    else
      var each := round(address.SliceBytes());
      if each * numExperts != address.sizeBytes then None
      else Some((address.byteStart + expert * each, address.byteStart + expert * each + each))
  }

  /** Is the tensor a bank of that many experts, and this one of them? */
  predicate IsBankOf(address: TensorAddress, expert: int, numExperts: int) {
    |address.shape| >= 2 && address.shape[0] == numExperts && 0 <= expert < numExperts && Product(address.shape) > 0
  }

  /** The bytes of one expert are an even share of the tensor's. */
  lemma ShareOfBank(size: nat, n: nat, per: nat)
    requires n > 0 && per > 0
    ensures Area(n, per) > 0
    ensures per as real * (size as real / Area(n, per) as real) == size as real / n as real
  {
    CastProduct(n, per);
    MulMonotone(1, n, per);
    var total, share := Area(n, per) as real, size as real / Area(n, per) as real;
    QuotientTimes(size as real, total);
    QuotientTimes(size as real, n as real);
    assert (per as real * share) * n as real == share * total;
    SameProduct(per as real * share, size as real / n as real, n as real);
  }

  lemma EvenQuotient(size: nat, n: nat)
    requires n > 0 && size % n == 0
    ensures size as real / n as real == (size / n) as real
  {
    JoinIndex(size, n);
    CastProduct(size / n, n);
    QuotientTimes(size as real, n as real);
    SameProduct(size as real / n as real, (size / n) as real, n as real);
  }

  lemma SameProduct(a: real, b: real, d: real)
    requires d > 0.0 && a * d == b * d
    ensures a == b
  {
  }

  lemma BankParams(address: TensorAddress, expert: int, numExperts: int)
    requires address.Valid() && IsBankOf(address, expert, numExperts)
    ensures address.numParams == Area(numExperts, Product(address.shape[1..])) > 0 && Product(address.shape[1..]) > 0
  {
    var per := Product(address.shape[1..]);
    assert address.numParams == numExperts * per;
  }

  /** What slicing a bank rounds and compares. */
  lemma SliceOfBank(address: TensorAddress, expert: int, numExperts: int, round: real -> int)
    requires address.Valid() && IsBankOf(address, expert, numExperts)
    ensures
      var each := round(address.sizeBytes as real / numExperts as real);
      ExpertSlice(address, expert, numExperts, round) ==
        if each * numExperts != address.sizeBytes then None
        else Some((address.byteStart + expert * each, address.byteStart + expert * each + each))
  {
    BankParams(address, expert, numExperts);
    assert address.SliceBytes() == address.sizeBytes as real / numExperts as real by {
      hide ExpertSlice, Area;
      ShareOfBank(address.sizeBytes, numExperts, Product(address.shape[1..]));
    }
    hide Product, Area, TensorAddress.SliceBytes;
  }

  /** The rounded share, times the experts, is the size exactly if the size divides evenly. */
  lemma EvenShare(size: nat, n: nat, round: real -> int)
    requires n > 0 && forall x: real {:trigger round(x)} :: -0.5 <= x - round(x) as real <= 0.5
    ensures round(size as real / n as real) * n == size <==> size % n == 0
    ensures size % n == 0 ==> round(size as real / n as real) == size / n
  {
    var each := round(size as real / n as real);
    if size % n == 0 {
      EvenQuotient(size, n);
      JoinIndex(size, n);
    } else if each * n == size {
      ProductIsMultiple(each, n, size);
    }
  }

  /** A slice is refused exactly when the tensor is no bank of these experts or its bytes do not divide
      among them; otherwise the slices tile the tensor. */
  lemma SlicesTile(address: TensorAddress, expert: int, numExperts: int, round: real -> int)
    requires address.Valid() && forall x: real {:trigger round(x)} :: -0.5 <= x - round(x) as real <= 0.5
    ensures ExpertSlice(address, expert, numExperts, round).Some? <==>
      IsBankOf(address, expert, numExperts) && address.sizeBytes % numExperts == 0
    ensures IsBankOf(address, expert, numExperts) && address.sizeBytes % numExperts == 0 ==>
      var each := address.sizeBytes / numExperts;
      && ExpertSlice(address, expert, numExperts, round)
        == Some((address.byteStart + expert * each, address.byteStart + (expert + 1) * each))
      && numExperts * each == address.sizeBytes
  {
    if IsBankOf(address, expert, numExperts) {
      SliceOfBank(address, expert, numExperts, round);
      EvenShare(address.sizeBytes, numExperts, round);
      var each := address.sizeBytes / numExperts;
      assert (expert + 1) * each == expert * each + each;
    }
  }

  lemma ProductIsMultiple(each: int, n: nat, size: nat)
    requires n > 0 && each * n == size
    ensures size % n == 0
  {
    if each >= 0 {
      SplitIndex(each, 0, n);
    } else {
      MulMonotone(each, 0, n);
    }
  }
}
