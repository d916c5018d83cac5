/**
 * The two value models the bridge translates between: the host's tagged value
 * (QVariant) and the embedded Python 2 interpreter's objects.
 */
module Values {

  import opened Strings

  const TWO_POW_64: int := 0x1_0000_0000_0000_0000
  const INT64_MIN: int := -0x8000_0000_0000_0000
  const INT64_MAX: int := 0x7FFF_FFFF_FFFF_FFFF

  predicate InInt64(x: int) { INT64_MIN <= x <= INT64_MAX }

  /** The qint64 reading of an integer: two's-complement wrap-around modulo 2^64. */
  function WrapInt64(x: int): (r: int)
    ensures InInt64(r)
    ensures (x - r) % TWO_POW_64 == 0
    ensures InInt64(x) ==> r == x
  {
    var m := x % TWO_POW_64;
    if m <= INT64_MAX then m else m - TWO_POW_64
  }

  /** The integer QMetaTypes that variantToPythonObject treats alike (LP64: long is 64 bits). */
  datatype IntKind = Char | UChar | Short | UShort | Int | UInt | Long | ULong | LongLong | ULongLong

  datatype FloatKind = Float | Double

  /** A double, kept opaque as its IEEE-754 bit pattern; a float is held by its exact widening. */
  datatype Float64 = Float64(bits: bv64)

  /** QVariant, restricted to the types the bridge dispatches on. */
  datatype Variant =
    | Invalid                                // QVariant(): no type
    | VBool(b: bool)
    | VInt(kind: IntKind, value: int)
    | VFloat(fkind: FloatKind, f: Float64)
    | VChar(c: char)                         // QChar
    | VString(s: string)                     // QString
    | VBytes(bytes: seq<byte>)               // QByteArray
    | VStringList(strings: seq<string>)      // QStringList
    | VList(items: seq<Variant>)             // QVariantList
    | VMap(entries: map<string, Variant>)    // QVariantMap
    | VHash(hashEntries: map<string, Variant>) // QVariantHash
    | VVoid                                  // QMetaType::Void
    | VVoidStar                              // QMetaType::VoidStar
    | VOther(typeId: int)                    // any other QMetaType
  {
    /** QVariant::isValid. */
    predicate IsValid() { !Invalid? }
  }

  /** The Python 2 objects the bridge dispatches on; everything else is opaque. */
  datatype PyObject =
    | PyNone
    | PyBool(b: bool)
    | PyInt(i: int)                          // int: a C long
    | PyLong(l: int)                         // long: unbounded
    | PyFloat(f: Float64)
    | PyStr(data: seq<byte>)                 // str: a byte string
    | PyUnicode(u: string)
    | PyByteArray(content: seq<byte>)
    | PyTuple(elems: seq<PyObject>)
    | PyList(elements: seq<PyObject>)
    | PyDict(items: seq<(PyObject, PyObject)>) // entries in PyDict_Keys order
    | PyOpaque(id: nat)                      // modules, functions, code, tracebacks, ...

  /** QVariant::toLongLong for an integer variant. */
  function ToLongLong(kind: IntKind, value: int): (r: int)
    ensures InInt64(r)
    ensures InInt64(value) ==> r == value
  {
    WrapInt64(value)
  }

  /**
   * QVariant::toString for the variants that Python keys and str() results convert to:
   * bool, integer, QChar and QString. The others give the empty string here.
   */
  function VariantToString(v: Variant): string
  {
    match v
    case VBool(b) => if b then "true" else "false"
    case VInt(_, x) => DecimalString(x)
    case VChar(c) => [c]
    case VString(s) => s
    case _ => ""
  }

  /** QVariant::toStringList: a string list as is, a list element-wise, a string as one item. */
  function VariantToStringList(v: Variant): (r: seq<string>)
    ensures v.VList? ==> |r| == |v.items|
  {
    match v
    case VStringList(ss) => ss
    case VList(items) => seq(|items|, i requires 0 <= i < |items| => VariantToString(items[i]))
    case VString(s) => [s]
    case _ => []
  }

  /** QVariant::toByteArray for byte arrays and strings (UTF-8); empty otherwise. */
  function VariantToBytes(v: Variant): seq<byte>
  {
    match v
    case VBytes(b) => b
    case VString(s) => Utf8Encode(s)
    case _ => []
  }
}
