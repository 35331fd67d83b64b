/** The grammar's semantic value (`YYSTYPE`, an `antlrcpp::Any`) and the
    fleece containers that the tree is built from.

    `Any` is closed: it holds nothing but the variants the library dispatches
    on, so the `std::bad_cast` fall-through of `setAny` cannot be reached.
    `Slot` is what a fleece container stores at one index or key. */
module TaggedValue {
  import opened CStrings

  /** C++ `long long`. */
  newtype Int64 = x: int | -0x8000_0000_0000_0000 <= x < 0x8000_0000_0000_0000

  /** A C++ `double`, carried as its IEEE-754 bit pattern; nothing here
      computes with it. */
  datatype DoubleBits = DoubleBits(bits: bv64)

  /** An already-encoded, read-only fleece `Value`.  The library looks inside
      one only through `asString()` (and `asArray().asMutable()`, which is
      null for an immutable value), so the model keeps just whether it is a
      string and, if so, its text. */
  datatype FrozenValue = FrozenString(text: string) | FrozenOther(handle: nat)

  /** A fleece `MutableArray`: a shared handle, so a change made through one
      reference is seen through every slot that holds it. */
  class MArray {
    var elems: seq<Slot>

    /** `MutableArray::newArray()`. */
    constructor ()
      ensures elems == []
    {
      elems := [];
    }
  }

  /** A fleece `MutableDict`, a shared handle like `MArray`. */
  class MDict {
    var entries: map<string, Slot>

    /** `MutableDict::newDict()`. */
    constructor ()
      ensures entries == map[]
    {
      entries := map[];
    }
  }

  /** One stored element of a fleece container. */
  datatype Slot =
    | NullSlot
    | BoolSlot(b: bool)
    | IntSlot(i: Int64)
    | DoubleSlot(d: DoubleBits)
    | StringSlot(s: string)
    | FrozenSlot(v: FrozenValue)
    | ArraySlot(arr: MArray)
    | DictSlot(dict: MDict)

  /** The grammar's semantic value.  `Absent` is an empty `Any` (its
      `isNull()` holds); `Null` is fleece's explicit JSON null. */
  datatype Any =
    | Absent
    | Null
    | Bool(b: bool)
    | LongLong(i: Int64)
    | Double(d: DoubleBits)
    | Str(s: string)
    | Frozen(v: FrozenValue)
    | MutableArray(arr: MArray)
    | MutableDict(dict: MDict)

  /** The slot a container's `set` primitive writes for `value`, chosen by
      the same discriminant switch as `setAny`.  Strings go through
      `.c_str()`. */
  function ToSlot(value: Any): (r: Slot)
    requires !value.Absent?
    ensures FromSlot(r) == if value.Str? then Str(CStr(value.s)) else value
  {
    match value
    case Null => NullSlot
    case Bool(b) => BoolSlot(b)
    case LongLong(i) => IntSlot(i)
    case Double(d) => DoubleSlot(d)
    case Str(s) => StringSlot(CStr(s))
    case Frozen(v) => FrozenSlot(v)
    case MutableArray(a) => ArraySlot(a)
    case MutableDict(d) => DictSlot(d)
  }

  /** The variant a stored slot is read back as. */
  function FromSlot(s: Slot): (v: Any)
    ensures !v.Absent?
  {
    match s
    case NullSlot => Null
    case BoolSlot(b) => Bool(b)
    case IntSlot(i) => LongLong(i)
    case DoubleSlot(d) => Double(d)
    case StringSlot(t) => Str(t)
    case FrozenSlot(v) => Frozen(v)
    case ArraySlot(a) => MutableArray(a)
    case DictSlot(d) => MutableDict(d)
  }

  /** Storing never turns one variant into another: a value that is not
      absent, and whose string (if any) has no NUL, reads back as itself. */
  lemma StoreKeepsVariant(value: Any)
    requires !value.Absent?
    requires value.Str? ==> '\0' !in value.s
    ensures FromSlot(ToSlot(value)) == value
  {
    if value.Str? {
      CStrOfCString(value.s);
    }
  }
}
