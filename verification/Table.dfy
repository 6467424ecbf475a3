/** Tables of a wasm2c module: allocation and growth (section 4.5.3 of the WebAssembly Core Specification 1.0). */
module Table {
  import opened Bytes

  const FAILED := 0xFFFF_FFFF // (uint32_t)-1

  datatype Elements<T> = Elements(items: seq<T>, maxSize: nat)

  predicate ElementsOk<T>(t: Elements<T>) {
    |t.items| <= t.maxSize < TWO_32
  }

  function Copies<T>(x: T, n: nat): (s: seq<T>)
    ensures |s| == n && forall k :: 0 <= k < n ==> s[k] == x
  {
    if n == 0 then [] else Copies(x, n - 1) + [x]
  }

  datatype Grown<T> = Grown(table: Elements<T>, result: nat)

  function Grow<T>(t: Elements<T>, delta: nat, init: T, refused: bool): Grown<T> {
    if |t.items| + delta > t.maxSize || refused then Grown(t, FAILED)
    else Grown(t.(items := t.items + Copies(init, delta)), |t.items|)
  }

  /** What a growth answers and leaves behind, element by element. */
  lemma GrowTold<T>(t: Elements<T>, delta: nat, init: T, refused: bool)
    ensures var r := Grow(t, delta, init, refused);
            if |t.items| + delta <= t.maxSize && !refused then
              && r.result == |t.items| && |r.table.items| == |t.items| + delta && r.table.maxSize == t.maxSize
              && r.table.items[..|t.items|] == t.items
              && forall k :: |t.items| <= k < |r.table.items| ==> r.table.items[k] == init
            else r == Grown(t, 0xFFFF_FFFF)
  {
  }

  datatype Growth<T> = Growth(delta: nat, init: T, refused: bool)

  function Run<T>(t: Elements<T>, gs: seq<Growth<T>>): Elements<T>
  {
    if gs == [] then t
    else
      var n := |gs| - 1;
      Grow(Run(t, gs[..n]), gs[n].delta, gs[n].init, gs[n].refused).table
  }

  /** The growths of a run that succeed, one after the other. */
  function Added<T>(t: Elements<T>, gs: seq<Growth<T>>): seq<T> {
    if gs == [] then []
    else
      var n := |gs| - 1;
      var fits := |Run(t, gs[..n]).items| + gs[n].delta <= t.maxSize && !gs[n].refused;
      Added(t, gs[..n]) + if fits then Copies(gs[n].init, gs[n].delta) else []
  }

  /** Over any run of growths the limit holds, no element changes, and exactly the successful fills are appended. */
  lemma {:induction false} RunAppends<T>(t: Elements<T>, gs: seq<Growth<T>>)
    requires ElementsOk(t)
    ensures ElementsOk(Run(t, gs)) && Run(t, gs).maxSize == t.maxSize
    ensures Run(t, gs).items == t.items + Added(t, gs)
  {
    if gs != [] {
      var n := |gs| - 1;
      RunAppends(t, gs[..n]);
      Assoc(t.items, Added(t, gs[..n]), Copies(gs[n].init, gs[n].delta));
    }
  }

  class RuntimeTable<T> {
    var data: array<T>
    var size: nat
    const maxSize: nat
    const none: T

    ghost predicate Valid()
      reads this
    {
      data.Length == size <= maxSize < TWO_32
    }

    ghost function Value(): (t: Elements<T>)
      requires Valid()
      reads this, data
      ensures ElementsOk(t)
    {
      Elements(data[..], maxSize)
    }

    constructor (elements: nat, maxElements: nat, none: T)
      requires elements <= maxElements < TWO_32
      ensures Valid() && fresh(data)
      ensures Value() == Elements(Copies(none, elements), maxElements)
    {
      size := elements;
      maxSize := maxElements;
      this.none := none;
      data := new T[elements](_ => none);
      new;
      assert data[..] == Copies(none, elements);
    }

    /** realloc to n elements; the new ones hold nothing yet. */
    method Reallocate(n: nat)
      requires Valid() && size <= n <= maxSize
      modifies this
      ensures Valid() && size == n && fresh(data)
      ensures data[..old(size)] == old(data[..])
    {
      var moved := new T[n](_ => none);
      forall k | 0 <= k < size {
        moved[k] := data[k];
      }
      assert moved[..size] == data[..];
      data := moved;
      size := n;
    }

    /** The fill loop counts in 32 bits and still ends, because the limit is a 32-bit number. */
    method GrowBy(delta: nat, init: T, refused: bool) returns (result: nat)
      requires Valid() && delta < TWO_32
      modifies this
      ensures Valid() && (data == old(data) || fresh(data))
      ensures Grown(Value(), result) == Grow(old(Value()), delta, init, refused && (old(size) > 0 || delta > 0))
    {
      var oldElems := size;
      var newElems := size + delta;
      if newElems == 0 {
        assert Copies(init, 0) == [];
        return 0;
      }
      if newElems < oldElems || newElems > maxSize {
        return FAILED;
      }
      if refused {
        return FAILED;
      }
      Reallocate(newElems);
      var i := oldElems;
      while i < newElems
        invariant oldElems <= i <= newElems
        invariant Valid() && size == newElems && fresh(data)
        invariant data[..oldElems] == old(data[..])
        invariant forall k :: oldElems <= k < i ==> data[k] == init
        decreases newElems - i
      {
        data[i] := init;
        i := (i + 1) % TWO_32;
      }
      assert data[..] == old(data[..]) + Copies(init, delta);
      result := oldElems;
    }
  }
}
