/** `lil::IArr<TDerived, T>`: the array-view mixin. It keeps no state of its
    own; every accessor is an expression over the two things the derived type
    supplies, its `size()` and the storage its `data()` points at. A `View`
    is that pair, and iterators are indices into the storage. */
module ArrayView {

  /** What the derived type exposes: its logical length and its storage. */
  datatype View<T> = View(size: nat, data: seq<T>)

  /** The derived type's storage holds at least its logical length. */
  predicate Wf<T>(v: View<T>)
  {
    v.size <= |v.data|
  }

  /** The logical elements, positions `[0, size())` of the storage. */
  function Elements<T>(v: View<T>): seq<T>
    requires Wf(v)
  {
    v.data[..v.size]
  }

  /** `empty()`: no logical elements. */
  function Empty<T>(v: View<T>): (r: bool)
    ensures Wf(v) ==> (r <==> Elements(v) == [])
  {
    v.size == 0
  }

  /** `operator[](i)`: position `i` of the storage; nothing checks `i`
      against `size()`. */
  function Index<T>(v: View<T>, i: nat): (r: T)
    requires i < |v.data|
    ensures Wf(v) && i < v.size ==> r == Elements(v)[i]
  {
    v.data[i]
  }

  /** `at(i)`: the bounds check is disabled in the source, so it reads the
      same position `operator[]` does. */
  function At<T>(v: View<T>, i: nat): (r: T)
    requires i < |v.data|
    ensures r == Index(v, i)
  {
    v.data[i]
  }

  /** `front()`: position 0 of the storage, which is the first element when
      there is one. */
  function Front<T>(v: View<T>): (r: T)
    requires 0 < |v.data|
    ensures Wf(v) && v.size > 0 ==> r == Elements(v)[0]
  {
    v.data[0]
  }

  /** `back()`: position `size()` of the storage, the slot just past the last
      element (not the last element). */
  function Back<T>(v: View<T>): (r: T)
    requires v.size < |v.data|
    ensures v.data[..v.size + 1] == Elements(v) + [r]
  {
    v.data[v.size]
  }

  /** `begin()` (and `cbegin()`, below): position 0, where the elements start. */
  function Begin<T>(v: View<T>): (r: nat)
    ensures r == 0
    ensures Wf(v) ==> r + v.size <= |v.data| && v.data[r..r + v.size] == Elements(v)
  {
    0
  }

  /** `end()` (and `cend()`, below): position `size()`, one past the last
      element, so `end() - begin() == size()`. */
  function End<T>(v: View<T>): (r: nat)
    ensures r - Begin(v) == v.size
    ensures Wf(v) ==> r <= |v.data| && v.data[Begin(v)..r] == Elements(v)
  {
    v.size
  }

  /** `cbegin()`: the same position as `begin()`. */
  function CBegin<T>(v: View<T>): (r: nat)
    ensures r == Begin(v)
  {
    0
  }

  /** `cend()`: the same position as `end()`. */
  function CEnd<T>(v: View<T>): (r: nat)
    ensures r == End(v)
  {
    v.size
  }
}
