/**
 * quick::variant<Ts...>: a single-slot tagged union holding at most one live
 * object, whose type is one of the catalog Ts..., together with the index of
 * that type.
 *
 * The catalog (TypeListImpl / GetNthType) is a compile-time lookup from an
 * index to a type. Here every object is a value of one universe type T, and
 * the catalog is the function `slot`, which gives the catalog position of a
 * value's type; `size` is sizeof...(Ts). The erased cell (TypeWrapper behind a
 * unique_ptr<AbstractBaseType>) becomes `ptr: Option<T>`: None is the null
 * pointer, and destruction is implicit.
 */
module QuickVariant {

  datatype Option<T> = None | Some(value: T)

  /** Outcome of the const accessor: the object, or the runtime_error it throws. */
  datatype Access<T> = Ok(value: T) | RuntimeError(message: string)

  /** The message of the runtime_error thrown by const at<i>(), spelled as in the library. */
  const ConstAccessMessage: string :=
    "[quick::variant]: const access is now allowed if corrosponding type is not already set"

  /**
   * The observable state machine of a variant: Empty, or Holding(i) with the
   * live object of the type at catalog position i.
   */
  datatype State<T> = Empty | Holding(index: nat, live: T)

  /** selected_type(): the active index, or the sentinel `size` when empty. */
  function ActiveIndex<T>(s: State<T>, size: nat): (r: nat)
    requires s.Holding? ==> s.index < size
    ensures r <= size
    ensures r == size <==> s.Empty?
    ensures s.Holding? ==> r == s.index
  {
    if s.Empty? then size else s.index
  }

  /**
   * Get-or-construct at<i>(args...): the state is rebuilt around `built` (the
   * object NthType<i>(args...) constructs) unless it already holds index i, in
   * which case it is kept and `built` is ignored.
   */
  function Construct<T>(s: State<T>, i: nat, built: T): (r: State<T>)
    ensures r.Holding? && r.index == i
  {
    if s.Holding? && s.index == i then s else Holding(i, built)
  }

  /** Strict read, const at<i>(): succeeds exactly when the state is Holding(i). */
  function Read<T>(s: State<T>, i: nat): (r: Access<T>)
    ensures r.Ok? <==> s.Holding? && s.index == i
    ensures r.Ok? ==> r.value == s.live
    ensures r.RuntimeError? ==> r.message == ConstAccessMessage
  {
    if s.Holding? && s.index == i then Ok(s.live) else RuntimeError(ConstAccessMessage)
  }

  /** at<i>(args) followed by const at<i>() reads back the object that at<i> returned. */
  lemma ConstructThenRead<T>(s: State<T>, i: nat, built: T)
    ensures Read(Construct(s, i, built), i) == Ok(Construct(s, i, built).live)
    ensures !(s.Holding? && s.index == i) ==> Read(Construct(s, i, built), i) == Ok(built)
  {
  }

  /** A second at<i>(args') after at<i>(args) is a no-op: get-or-construct, not reset. */
  lemma ConstructReuses<T>(s: State<T>, i: nat, built: T, other: T)
    ensures Construct(Construct(s, i, built), i, other) == Construct(s, i, built)
    ensures s.Holding? && s.index == i ==> Construct(s, i, other) == s
  {
  }

  /** Switching to j != i destroys the object of index i: reading i afterwards fails. */
  lemma ConstructSwitches<T>(s: State<T>, i: nat, j: nat, a: T, b: T)
    requires i != j
    ensures Construct(Construct(s, i, a), j, b) == Holding(j, b)
    ensures Read(Construct(Construct(s, i, a), j, b), i).RuntimeError?
  {
  }

  /** After at<i>(args), selected_type() is i and the variant is initialized. */
  lemma ConstructSelects<T>(s: State<T>, i: nat, built: T, size: nat)
    requires i < size
    ensures ActiveIndex(Construct(s, i, built), size) == i
    ensures Construct(s, i, built).Holding?
  {
  }

  /** An empty variant refuses every strict read. */
  lemma EmptyRefusesReads<T>(i: nat)
    ensures Read<T>(Empty, i) == RuntimeError(ConstAccessMessage)
  {
  }

  /**
   * The variant object. `ptr` is the owning pointer to the erased cell and
   * `selectedType` the field selected_type_, which clear() leaves stale.
   */
  class Variant<T> {
    /** sizeof...(Ts): the number of catalog types, also the "empty" sentinel. */
    const size: nat
    /** The catalog: the position in Ts... of the type of each value. */
    const slot: T -> nat
    var ptr: Option<T>
    var selectedType: nat

    /**
     * The cell's dynamic type is the type at position selectedType, so the
     * static_cast<NthTypeWrapper<index>&> in both at() overloads is sound.
     */
    ghost predicate Valid()
      reads this
    {
      ptr.Some? ==> slot(ptr.value) == selectedType < size
    }

    /** The state machine this object implements. */
    ghost function Abstract(): State<T>
      reads this
    {
      if ptr.None? then Empty else Holding(selectedType, ptr.value)
    }

    /** The default constructor: a null cell and selected_type_ = 0. */
    constructor (size: nat, slot: T -> nat)
      ensures Valid() && this.size == size && this.slot == slot
      ensures ptr == None && selectedType == 0
      ensures Abstract() == Empty
    {
      this.size := size;
      this.slot := slot;
      ptr := None;
      selectedType := 0;
    }

    /**
     * at<i>(args...): rebuild the cell when it is null or holds another index,
     * then record i and return the live object. `built` is the outcome of
     * `new NthTypeWrapper<i>(args...)`: the object, or None when its
     * constructor or the allocation throws. The exception then leaves the
     * method before reset() and before selected_type_ is written, so nothing
     * changes; None is returned for it.
     */
    method At(i: nat, built: Option<T>) returns (r: Option<T>)
      requires Valid() && i < size && (built.Some? ==> slot(built.value) == i)
      modifies this
      ensures Valid()
      ensures r.None? <==> old(ptr.None? || selectedType != i) && built.None?
      ensures r.None? ==> ptr == old(ptr) && selectedType == old(selectedType)
      ensures r.Some? ==> selectedType == i && ptr == r
      ensures built.Some? ==> Abstract() == Construct(old(Abstract()), i, built.value)
      ensures old(ptr.Some? && selectedType == i) ==> ptr == old(ptr)
      ensures old(ptr.None? || selectedType != i) && built.Some? ==> r == built
    {
      if ptr.None? || selectedType != i {
        if built.None? {
          return None;
        }
        ptr := built;
      }
      selectedType := i;
      r := ptr;
    }

    /** const at<i>(): the live object when it has index i, the runtime_error otherwise. */
    function ConstAt(i: nat): (r: Access<T>)
      requires Valid() && i < size
      reads this
      ensures r == Read(Abstract(), i)
      ensures r.Ok? <==> ptr.Some? && selectedType == i
      ensures r.Ok? ==> slot(r.value) == i
    {
      if ptr.None? || selectedType != i then RuntimeError(ConstAccessMessage) else Ok(ptr.value)
    }

    /** clear(): resets the cell; selected_type_ keeps its stale value. */
    method Clear()
      requires Valid()
      modifies this
      ensures Valid()
      ensures ptr == None && selectedType == old(selectedType)
      ensures Abstract() == Empty
    {
      ptr := None;
    }

    /** initialized(): whether the cell is non-null. */
    function Initialized(): (b: bool)
      reads this
      ensures b <==> Abstract().Holding?
    {
      ptr.Some?
    }

    /** selected_type(): the sentinel `size` when the cell is null, selected_type_ otherwise. */
    function SelectedType(): (r: nat)
      requires Valid()
      reads this
      ensures r <= size
      ensures r == size <==> !Initialized()
      ensures Initialized() ==> slot(ptr.value) == r
      ensures r == ActiveIndex(Abstract(), size)
    {
      if ptr.None? then size else selectedType
    }
  }

  /** The two alternatives of a variant<int, std::string>. */
  datatype IntOrText = Int(n: int) | Str(s: string)

  function IntOrTextSlot(v: IntOrText): nat
  {
    match v
    case Int(_) => 0
    case Str(_) => 1
  }

  /** A client of variant<int, std::string> that relies only on the contracts above. */
  method IntOrTextClient()
  {
    var v := new Variant<IntOrText>(2, IntOrTextSlot);
    assert v.ConstAt(0).RuntimeError? && v.ConstAt(1).RuntimeError?;
    var x := v.At(1, Some(Str("hello")));
    assert v.SelectedType() == 1 && v.ConstAt(1) == Ok(Str("hello"));
    assert v.ConstAt(0).RuntimeError?;
    x := v.At(1, Some(Str("ignored")));
    assert x == Some(Str("hello"));
    x := v.At(1, None);
    assert x == Some(Str("hello"));
    x := v.At(0, None);
    assert x.None? && v.SelectedType() == 1 && v.ConstAt(1) == Ok(Str("hello"));
    x := v.At(0, Some(Int(42)));
    assert v.SelectedType() == 0 && v.ConstAt(0) == Ok(Int(42));
    assert v.ConstAt(1).RuntimeError?;
    v.Clear();
    assert !v.Initialized() && v.SelectedType() == 2;
    assert v.ConstAt(0).RuntimeError? && v.ConstAt(1).RuntimeError?;
    v.Clear();
    assert !v.Initialized() && v.SelectedType() == 2;
  }
}
