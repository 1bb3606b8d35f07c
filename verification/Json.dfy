/** JSON values as the store holds them, their compact serialisation and their sizes. */
module Json {
  import opened Prelude

  /** A printed number: a sign or a digit comes first. */
  type Numeral = text: string | text != [] && (text[0] == '-' || '0' <= text[0] <= '9') witness "0"

  /** A number keeps its printed text beside its value: 1 and 1.0 are different
      values that compare as equal numbers. */
  datatype Value =
    | Null
    | Bool(b: bool)
    | Number(value: real, text: Numeral)
    | Str(s: string)
    | Array(items: seq<Value>)
    | Object(fields: map<string, Value>)

  const EMPTY_OBJECT := Object(map[])

  function Get(v: Value, key: string): Option<Value> {
    if v.Object? && key in v.fields then Some(v.fields[key]) else None
  }

  /** The value at a path of keys; only objects have keys. */
  function ValueAt(v: Value, path: seq<string>): Option<Value> {
    if path == [] then Some(v)
    else if Get(v, path[0]).None? then None
    else ValueAt(Get(v, path[0]).value, path[1..])
  }

  /** Shallow merge: an object patch overwrites fields, any other patch replaces the target. */
  function MergeObject(target: Value, patch: Value): Value {
    if target.Object? && patch.Object? then Object(target.fields + patch.fields) else patch
  }

  // ----- Compact serialisation -----

  function HexDigit(n: nat): char
    requires n < 16
  {
    "0123456789abcdef"[n]
  }

  function EscapedChar(c: char): string {
    if c == '\"' then "\\\"" else if c == '\\' then "\\\\"
    else if c == '\n' then "\\n" else if c == '\r' then "\\r" else if c == '\t' then "\\t"
    else if c as int == 8 then "\\b" else if c as int == 12 then "\\f"
    else if c as int < 32 then "\\u00" + [HexDigit(c as int / 16), HexDigit(c as int % 16)]
    else [c]
  }

  function Escaped(s: string): string {
    if s == [] then [] else EscapedChar(s[0]) + Escaped(s[1..])
  }

  function Quoted(s: string): string {
    "\"" + Escaped(s) + "\""
  }

  function Text(v: Value): string
    decreases v, if v.Object? then |v.fields| + 1 else 0
  {
    match v
    case Null => "null"
    case Bool(b) => if b then "true" else "false"
    case Number(_, text) => text
    case Str(s) => Quoted(s)
    case Array(items) => "[" + ItemsText(items) + "]"
    case Object(fields) => "{" + FieldsText(v, InOrder(fields.Keys)) + "}"
  }

  function ItemsText(items: seq<Value>): string
    decreases items
  {
    if items == [] then []
    else if |items| == 1 then Text(items[0])
    else Text(items[0]) + "," + ItemsText(items[1..])
  }

  function FieldsText(v: Value, keys: seq<string>): string
    requires v.Object? && forall k :: k in keys ==> k in v.fields
    decreases v, |keys|
  {
    if keys == [] then []
    else
      var first := Quoted(keys[0]) + ":" + Text(v.fields[keys[0]]);
      if |keys| == 1 then first else first + "," + FieldsText(v, keys[1..])
  }

  // ----- Sizes -----

  /** Bytes of the UTF-8 form of a string, and of the compact serialisation of a value.
      Both stay abstract: every result about sizes holds whatever these two answer. */
  const Utf8Len: string -> nat
  const ValueBytes: Value -> nat
}
