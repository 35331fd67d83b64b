/** Building the JSON query tree from grammar values: `setAny`, `insertAny`,
    `appendAny`, `array`, `arrayWith`, `dictWith`, `op`, `binaryOp` and
    `unaryOp`.

    Containers are changed in place through their handles; every function
    that the C++ writes as "change the container, then return it" is a method
    that modifies the container and returns the same handle. */
module TreeBuilder {
  import opened CStrings
  import opened TaggedValue

  // ---------------------------------------------------------------------
  // What the container operations do to the abstract contents

  /** The contents of a dict after `setAny(dict, key, value)`: an absent
      value leaves the dict alone; any other value, explicit null included,
      is stored under `key` and nothing else moves. */
  function DictStore(m: map<string, Slot>, key: string, value: Any): (r: map<string, Slot>)
    ensures value.Absent? ==> r == m
    ensures !value.Absent? ==> r.Keys == m.Keys + {key} && r[key] == ToSlot(value)
    ensures value.Null? ==> key in r && r[key] == NullSlot
    ensures forall k :: k in m && k != key ==> k in r && r[k] == m[k]
  {
    if value.Absent? then m else m[key := ToSlot(value)]
  }

  /** `s` widened at `i` by one element `x`: the elements before `i` stay,
      `x` lands at `i`, and the elements from `i` on move up by one. */
  function Inserted<T>(s: seq<T>, i: nat, x: T): (r: seq<T>)
    requires i <= |s|
    ensures |r| == |s| + 1 && r[i] == x
    ensures forall k :: 0 <= k < i ==> r[k] == s[k]
    ensures forall k :: i <= k < |s| ==> r[k + 1] == s[k]
  {
    s[..i] + [x] + s[i..]
  }

  /** Appending is inserting at the end. */
  lemma AppendIsInsertAtEnd<T>(s: seq<T>, x: T)
    ensures Inserted(s, |s|, x) == s + [x]
  {
  }

  // ---------------------------------------------------------------------
  // Adding `Any` values to dicts and arrays

  /** `setAny(dict, key, value)`: dispatch on the variant and store it, or do
      nothing for an absent value. */
  method SetAnyInDict(dict: MDict, key: string, value: Any) returns (r: MDict)
    modifies dict
    ensures r == dict
    ensures dict.entries == DictStore(old(dict.entries), key, value)
  {
    r := dict;
    match value {
      case Absent => return;
      case MutableArray(a) => dict.entries := dict.entries[key := ArraySlot(a)];
      case MutableDict(d) => dict.entries := dict.entries[key := DictSlot(d)];
      case Frozen(v) => dict.entries := dict.entries[key := FrozenSlot(v)];
      case Str(s) => dict.entries := dict.entries[key := StringSlot(CStr(s))];
      case LongLong(i) => dict.entries := dict.entries[key := IntSlot(i)];
      case Double(d) => dict.entries := dict.entries[key := DoubleSlot(d)];
      case Bool(b) => dict.entries := dict.entries[key := BoolSlot(b)];
      case Null => dict.entries := dict.entries[key := NullSlot];
    }
  }

  /** `setAny(array, index, value)`: overwrite the slot at `index`.  An
      absent value has no array form; the source asserts against it. */
  method SetAnyInArray(arr: MArray, index: nat, value: Any) returns (r: MArray)
    requires !value.Absent?
    requires index < |arr.elems|
    modifies arr
    ensures r == arr
    ensures arr.elems == old(arr.elems)[index := ToSlot(value)]
  {
    r := arr;
    match value {
      case MutableArray(a) => arr.elems := arr.elems[index := ArraySlot(a)];
      case MutableDict(d) => arr.elems := arr.elems[index := DictSlot(d)];
      case Frozen(v) => arr.elems := arr.elems[index := FrozenSlot(v)];
      case Str(s) => arr.elems := arr.elems[index := StringSlot(CStr(s))];
      case LongLong(i) => arr.elems := arr.elems[index := IntSlot(i)];
      case Double(d) => arr.elems := arr.elems[index := DoubleSlot(d)];
      case Bool(b) => arr.elems := arr.elems[index := BoolSlot(b)];
      case Null => arr.elems := arr.elems[index := NullSlot];
    }
  }

  /** `insertAny(array, index, value)`: open a null slot at `index`, then
      `setAny` it. */
  method InsertAny(arr: MArray, index: nat, value: Any) returns (r: MArray)
    requires !value.Absent?
    requires index <= |arr.elems|
    modifies arr
    ensures r == arr
    ensures arr.elems == Inserted(old(arr.elems), index, ToSlot(value))
  {
    arr.elems := Inserted(arr.elems, index, NullSlot);
    r := SetAnyInArray(arr, index, value);
  }

  /** `appendAny(array, value)`: append a null slot, then `setAny` it. */
  method AppendAny(arr: MArray, value: Any) returns (r: MArray)
    requires !value.Absent?
    modifies arr
    ensures r == arr
    ensures arr.elems == old(arr.elems) + [ToSlot(value)]
  {
    var index := |arr.elems|;
    arr.elems := arr.elems + [NullSlot];
    r := SetAnyInArray(arr, index, value);
  }

  // ---------------------------------------------------------------------
  // Constructing arrays and dicts

  /** `array()`: a new, empty array. */
  method NewArray() returns (a: MArray)
    ensures fresh(a) && a.elems == []
  {
    a := new MArray();
  }

  /** `arrayWith(T item)`: a new array holding the one fleece value `item`. */
  method ArrayWith(item: Slot) returns (a: MArray)
    ensures fresh(a) && a.elems == [item]
  {
    a := NewArray();
    a.elems := a.elems + [item];
  }

  /** `arrayWith(string item)`: the string is stored as text, through
      `.c_str()`. */
  method ArrayWithString(item: string) returns (a: MArray)
    ensures fresh(a) && a.elems == [StringSlot(CStr(item))]
  {
    a := NewArray();
    a.elems := a.elems + [StringSlot(CStr(item))];
  }

  /** `arrayWith(Any item)`: `appendAny` onto a new array. */
  method ArrayWithAny(item: Any) returns (a: MArray)
    requires !item.Absent?
    ensures fresh(a) && a.elems == [ToSlot(item)]
  {
    a := NewArray();
    a := AppendAny(a, item);
  }

  /** `dictWith(key, T item)`: a new dict holding `item` under `key`. */
  method DictWith(key: string, item: Slot) returns (d: MDict)
    ensures fresh(d) && d.entries == map[key := item]
  {
    d := new MDict();
    d.entries := d.entries[key := item];
  }

  /** `dictWith(key, string item)`. */
  method DictWithString(key: string, item: string) returns (d: MDict)
    ensures fresh(d) && d.entries == map[key := StringSlot(CStr(item))]
  {
    d := new MDict();
    d.entries := d.entries[key := StringSlot(CStr(item))];
  }

  /** `dictWith(key, Any item)`: `setAny` on a new dict, so an absent item
      gives an empty dict. */
  method DictWithAny(key: string, item: Any) returns (d: MDict)
    ensures fresh(d)
    ensures d.entries == if item.Absent? then map[] else map[key := ToSlot(item)]
  {
    d := new MDict();
    var _ := SetAnyInDict(d, key, item);
  }

  // ---------------------------------------------------------------------
  // Operation nodes: `[operator, operand, ...]`

  /** `op(oper, op1)`. */
  method Op1(oper: string, op1: Any) returns (r: MArray)
    requires !op1.Absent?
    ensures fresh(r)
    ensures r.elems == [StringSlot(CStr(oper)), ToSlot(op1)]
  {
    r := ArrayWith(StringSlot(CStr(oper)));
    r := AppendAny(r, op1);
  }

  /** `op(oper, op1, op2)`: operands in argument order. */
  method Op2(oper: string, op1: Any, op2: Any) returns (r: MArray)
    requires !op1.Absent? && !op2.Absent?
    ensures fresh(r)
    ensures r.elems == [StringSlot(CStr(oper)), ToSlot(op1), ToSlot(op2)]
  {
    r := Op1(oper, op1);
    r := AppendAny(r, op2);
  }

  /** `op(oper, op1, op2, op3)`: operands in argument order. */
  method Op3(oper: string, op1: Any, op2: Any, op3: Any) returns (r: MArray)
    requires !op1.Absent? && !op2.Absent? && !op3.Absent?
    ensures fresh(r)
    ensures r.elems == [StringSlot(CStr(oper)), ToSlot(op1), ToSlot(op2), ToSlot(op3)]
  {
    r := Op2(oper, op1, op2);
    r := AppendAny(r, op3);
  }

  /** `binaryOp(left, oper, right)`: the operator arrives as a grammar
      value, which must hold a string (`as<string>()`). */
  method BinaryOp(left: Any, oper: Any, right: Any) returns (r: MArray)
    requires oper.Str?
    requires !left.Absent? && !right.Absent?
    ensures fresh(r)
    ensures r.elems == [StringSlot(CStr(oper.s)), ToSlot(left), ToSlot(right)]
  {
    r := Op2(CStr(oper.s), left, right);
    CStrOfCString(CStr(oper.s));
  }

  /** `unaryOp(oper, right)`. */
  method UnaryOp(oper: Any, right: Any) returns (r: MArray)
    requires oper.Str?
    requires !right.Absent?
    ensures fresh(r)
    ensures r.elems == [StringSlot(CStr(oper.s)), ToSlot(right)]
  {
    r := Op1(CStr(oper.s), right);
    CStrOfCString(CStr(oper.s));
  }

  // ---------------------------------------------------------------------
  // Clients

  /** `binaryOp(".age", ">", 21)` gives `[">", ".age", 21]`. */
  method ComparisonScenario() returns (r: MArray)
    ensures fresh(r)
    ensures r.elems == [StringSlot(">"), StringSlot(".age"), IntSlot(21)]
  {
    r := BinaryOp(Str(".age"), Str(">"), LongLong(21));
    CStrOfCString(">");
    CStrOfCString(".age");
  }

  /** An array already embedded in another keeps growing in place: the
      parent holds the handle, so it sees the later append. */
  method AppendAfterEmbed(x: Any) returns (parent: MArray, child: MArray)
    requires !x.Absent?
    ensures fresh(parent) && fresh(child) && parent != child
    ensures parent.elems == [StringSlot("AND"), ArraySlot(child)]
    ensures child.elems == [ToSlot(x)]
  {
    child := NewArray();
    parent := Op1("AND", MutableArray(child));
    CStrOfCString("AND");
    child := AppendAny(child, x);
  }
}
