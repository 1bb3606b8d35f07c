/** The compact text of a JSON value can be read back, so that it tells values apart; which
    decides when two sort values tie. */
module JsonText {
  import opened Prelude
  import opened Json
  import opened Search

  predicate NumeralChar(c: char) {
    '0' <= c <= '9' || c in {'-', '+', '.', 'e', 'E'}
  }

  /** Every number in the value stands beside its own numeral. */
  predicate Written(v: Value, parse: string -> real)
    decreases v
  {
    match v
    case Number(value, text) => (forall i :: 0 <= i < |text| ==> NumeralChar(text[i])) && parse(text) == value
    case Array(items) => forall i :: 0 <= i < |items| ==> Written(items[i], parse)
    case Object(fields) => forall k :: k in fields ==> Written(fields[k], parse)
    case _ => true
  }

  // ----- A reader -----

  function DigitOf(c: char): int {
    if '0' <= c <= '9' then c as int - '0' as int else if 'a' <= c <= 'f' then c as int - 'a' as int + 10 else -1
  }

  /** The character an escape stands for, and how many characters it takes. */
  function ReadChar(t: string): Option<(char, nat)> {
    if t == [] then None
    else if t[0] != '\\' then Some((t[0], 1))
    else if |t| < 2 then None
    else if t[1] == '\"' || t[1] == '\\' then Some((t[1], 2))
    else if t[1] == 'n' then Some(('\n', 2))
    else if t[1] == 'r' then Some(('\r', 2))
    else if t[1] == 't' then Some(('\t', 2))
    else if t[1] == 'b' then Some((8 as char, 2))
    else if t[1] == 'f' then Some((12 as char, 2))
    else if |t| >= 6 && t[..4] == "\\u00" && 0 <= DigitOf(t[4]) < 8 && 0 <= DigitOf(t[5]) then
      Some(((16 * DigitOf(t[4]) + DigitOf(t[5])) as char, 6))
    else None
  }

  /** A string up to its closing quote, and what follows. */
  function ReadString(t: string): Option<(string, string)> {
    if t == [] then None
    else if t[0] == '\"' then Some(("", t[1..]))
    else
      match ReadChar(t)
      case None => None
      case Some((c, n)) =>
        if n == 0 || n > |t| then None else
        match ReadString(t[n..])
        case None => None
        case Some((s, rest)) => Some(([c] + s, rest))
  }

  function ReadNumeral(t: string): (text: string)
    ensures text <= t
  {
    if t == [] || !NumeralChar(t[0]) then "" else [t[0]] + ReadNumeral(t[1..])
  }

  function ReadValue(t: string, parse: string -> real): Option<(Value, string)>
    decreases |t|, 0
  {
    if t == [] then None
    else if t[0] == 'n' then if "null" <= t then Some((Null, t[4..])) else None
    else if t[0] == 't' then if "true" <= t then Some((Bool(true), t[4..])) else None
    else if t[0] == 'f' then if "false" <= t then Some((Bool(false), t[5..])) else None
    else if t[0] == '\"' then
      match ReadString(t[1..]) case None => None case Some((s, rest)) => Some((Str(s), rest))
    else if t[0] == '[' then
      if |t| > 1 && t[1] == ']' then Some((Array([]), t[2..])) else
      match ReadItems(t[1..], parse) case None => None case Some((items, rest)) => Some((Array(items), rest))
    else if t[0] == '{' then
      if |t| > 1 && t[1] == '}' then Some((Object(map[]), t[2..])) else
      match ReadFields(t[1..], parse) case None => None case Some((fields, rest)) => Some((Object(fields), rest))
    else if t[0] == '-' || '0' <= t[0] <= '9' then
      var text := ReadNumeral(t);
      Some((Number(parse(text), text), t[|text|..]))
    else None
  }

  function ReadItems(t: string, parse: string -> real): Option<(seq<Value>, string)>
    decreases |t|, 1
  {
    match ReadValue(t, parse)
    case None => None
    case Some((v, rest)) =>
      if rest == [] || |rest| >= |t| then None
      else if rest[0] == ']' then Some(([v], rest[1..]))
      else if rest[0] != ',' then None
      else
        match ReadItems(rest[1..], parse) case None => None case Some((items, end)) => Some(([v] + items, end))
  }

  function ReadFields(t: string, parse: string -> real): Option<(map<string, Value>, string)>
    decreases |t|, 1
  {
    if t == [] || t[0] != '\"' then None else
    match ReadString(t[1..])
    case None => None
    case Some((key, after)) =>
      if after == [] || after[0] != ':' || |after| >= |t| then None else
      match ReadValue(after[1..], parse)
      case None => None
      case Some((v, rest)) =>
        if rest == [] || |rest| >= |t| then None
        else if rest[0] == '}' then Some((map[key := v], rest[1..]))
        else if rest[0] != ',' then None
        else
          match ReadFields(rest[1..], parse)
          case None => None
          case Some((fields, end)) => Some((fields[key := v], end))
  }

  // ----- What is printed is read back -----

  lemma CharReads(c: char, rest: string)
    ensures var e := EscapedChar(c);
            1 <= |e| && e[0] != '\"' && ReadChar(e + rest) == Some((c, |e|))
  {
  }

  lemma {:induction false} StringReads(s: string, rest: string)
    ensures ReadString(Escaped(s) + "\"" + rest) == Some((s, rest))
  {
    hide EscapedChar, ReadChar;
    if s != [] {
      var e, more := EscapedChar(s[0]), Escaped(s[1..]) + "\"" + rest;
      assert Escaped(s) + "\"" + rest == e + more;
      CharReads(s[0], more);
      assert (e + more)[|e|..] == more;
      StringReads(s[1..], rest);
      assert s == [s[0]] + s[1..];
    }
  }

  lemma {:induction false} NumeralReads(text: string, rest: string)
    requires forall i :: 0 <= i < |text| ==> NumeralChar(text[i])
    requires rest == [] || !NumeralChar(rest[0])
    ensures ReadNumeral(text + rest) == text
  {
    if text != [] {
      NumeralReads(text[1..], rest);
      assert (text + rest)[1..] == text[1..] + rest;
    }
  }

  /** A value ends where no numeral goes on. */
  predicate Ends(rest: string) {
    rest == [] || !NumeralChar(rest[0])
  }

  lemma ScalarReads(v: Value, rest: string, parse: string -> real)
    requires !v.Array? && !v.Object? && Written(v, parse) && Ends(rest)
    ensures ReadValue(Text(v) + rest, parse) == Some((v, rest)) && Text(v) != [] && Text(v)[0] !in {']', '}'}
  {
    hide ReadString, ReadNumeral, ReadItems, ReadFields, Escaped;
    var t := Text(v) + rest;
    match v {
      case Null => assert t[4..] == rest;
      case Bool(b) => assert t[if b then 4 else 5..] == rest;
      case Number(_, text) =>
        NumeralReads(text, rest);
        assert t[0] == text[0] && t[|text|..] == rest;
      case Str(s) =>
        StringReads(s, rest);
        assert t[0] == '\"' && t[1..] == Escaped(s) + "\"" + rest;
    }
  }

  lemma ArrayReads(items: seq<Value>, rest: string, parse: string -> real)
    requires items != [] ==> ItemsText(items) != [] && ItemsText(items)[0] != ']'
    requires items != [] ==> ReadItems(ItemsText(items) + "]" + rest, parse) == Some((items, rest))
    ensures ReadValue(Text(Array(items)) + rest, parse) == Some((Array(items), rest))
    ensures Text(Array(items)) != [] && Text(Array(items))[0] == '['
  {
    hide ReadString, ReadNumeral, ReadItems, ReadFields, ItemsText;
    var t := Text(Array(items)) + rest;
    if items == [] {
      NoItemsPrint();
      assert t[2..] == rest;
    } else {
      assert t[1] == ItemsText(items)[0] && t[1..] == ItemsText(items) + "]" + rest;
    }
  }

  lemma ObjectReads(v: Value, rest: string, parse: string -> real)
    requires v.Object?
    requires var keys := InOrder(v.fields.Keys); v.fields != map[] ==>
      FieldsText(v, keys) != [] && FieldsText(v, keys)[0] != '}'
      && ReadFields(FieldsText(v, keys) + "}" + rest, parse) == Some((v.fields, rest))
    ensures ReadValue(Text(v) + rest, parse) == Some((v, rest)) && Text(v) != [] && Text(v)[0] == '{'
  {
    hide ReadString, ReadNumeral, ReadItems, ReadFields, FieldsText, InOrder;
    var t := Text(v) + rest;
    if v.fields == map[] {
      NoFieldsPrint(v);
      assert t[2..] == rest;
    } else {
      assert t[1] == FieldsText(v, InOrder(v.fields.Keys))[0];
      assert t[1..] == FieldsText(v, InOrder(v.fields.Keys)) + "}" + rest;
    }
  }

  lemma NoItemsPrint()
    ensures ItemsText([]) == []
  {
  }

  lemma NoFieldsPrint(v: Value)
    requires v.Object? && v.fields == map[]
    ensures FieldsText(v, InOrder(v.fields.Keys)) == []
  {
    var keys := InOrder(v.fields.Keys);
    assert |v.fields.Keys| == 0 && keys == [];
  }

  lemma ItemReads(v: Value, items: seq<Value>, more: string, rest: string, parse: string -> real)
    requires Text(v) != [] && ReadValue(Text(v) + more, parse) == Some((v, more)) && more != []
    requires if more[0] == ']' then items == [] && more[1..] == rest
             else more[0] == ',' && ReadItems(more[1..], parse) == Some((items, rest))
    ensures ReadItems(Text(v) + more, parse) == Some(([v] + items, rest))
  {
    hide Text, ReadValue;
    var t := Text(v) + more;
    assert ReadValue(t, parse) == Some((v, more)) && |more| < |t|;
    assert items == [] ==> [v] + items == [v];
  }

  lemma FieldReads(key: string, v: Value, fields: map<string, Value>, more: string, rest: string,
                   parse: string -> real)
    requires Text(v) != [] && ReadValue(Text(v) + more, parse) == Some((v, more)) && more != []
    requires if more[0] == '}' then fields == map[] && more[1..] == rest
             else more[0] == ',' && ReadFields(more[1..], parse) == Some((fields, rest))
    ensures ReadFields(Quoted(key) + ":" + Text(v) + more, parse) == Some((fields[key := v], rest))
  {
    hide Text, ReadValue, ReadString, Escaped;
    var after := ":" + (Text(v) + more);
    var t := Quoted(key) + ":" + Text(v) + more;
    assert t[1..] == Escaped(key) + "\"" + after;
    StringReads(key, after);
    assert after[1..] == Text(v) + more;
  }

  function Picked(fields: map<string, Value>, keys: seq<string>): map<string, Value>
    requires forall k :: k in keys ==> k in fields
  {
    map k | k in keys :: fields[k]
  }

  lemma PickedOneMore(fields: map<string, Value>, keys: seq<string>)
    requires keys != [] && forall k :: k in keys ==> k in fields
    ensures Picked(fields, keys) == Picked(fields, keys[1..])[keys[0] := fields[keys[0]]]
  {
    assert forall k :: k in keys <==> k == keys[0] || k in keys[1..];
  }

  lemma {:induction false} TextReads(v: Value, rest: string, parse: string -> real)
    requires Written(v, parse) && Ends(rest)
    ensures ReadValue(Text(v) + rest, parse) == Some((v, rest)) && Text(v) != [] && Text(v)[0] !in {']', '}'}
    decreases v, 2
  {
    hide ReadValue, ReadItems, ReadFields, Text, ItemsText, FieldsText, InOrder;
    if v.Array? {
      if v.items != [] {
        ItemsRead(v.items, rest, parse);
      }
      ArrayReads(v.items, rest, parse);
    } else if v.Object? {
      if v.fields != map[] {
        var keys := InOrder(v.fields.Keys);
        InOrderAscends(v.fields.Keys);
        forall i, j | 0 <= i < j < |keys| ensures keys[i] != keys[j] { assert Less(keys[i], keys[j]); }
        assert keys != [] by { assert v.fields.Keys != {}; }
        FieldsRead(v, keys, rest, parse);
        assert Picked(v.fields, keys) == v.fields;
      }
      ObjectReads(v, rest, parse);
    } else {
      ScalarReads(v, rest, parse);
    }
  }

  lemma {:induction false} ItemsRead(items: seq<Value>, rest: string, parse: string -> real)
    requires items != [] && forall i :: 0 <= i < |items| ==> Written(items[i], parse)
    ensures ReadItems(ItemsText(items) + "]" + rest, parse) == Some((items, rest))
    ensures ItemsText(items) != [] && ItemsText(items)[0] != ']'
    decreases items, 1
  {
    hide ReadValue, ReadItems, Text;
    var first := Text(items[0]);
    if |items| == 1 {
      TextReads(items[0], "]" + rest, parse);
      ItemReads(items[0], [], "]" + rest, rest, parse);
      assert ItemsText(items) + "]" + rest == first + ("]" + rest);
      assert [items[0]] + [] == items;
    } else {
      var more := ItemsText(items[1..]) + "]" + rest;
      TextReads(items[0], "," + more, parse);
      ItemsRead(items[1..], rest, parse);
      ItemReads(items[0], items[1..], "," + more, rest, parse);
      assert ItemsText(items) + "]" + rest == first + ("," + more);
      assert items == [items[0]] + items[1..];
    }
  }

  lemma {:induction false} FieldsRead(v: Value, keys: seq<string>, rest: string, parse: string -> real)
    requires v.Object? && keys != [] && forall k :: k in keys ==> k in v.fields && Written(v.fields[k], parse)
    requires forall i, j :: 0 <= i < j < |keys| ==> keys[i] != keys[j]
    ensures ReadFields(FieldsText(v, keys) + "}" + rest, parse) == Some((Picked(v.fields, keys), rest))
    ensures FieldsText(v, keys) != [] && FieldsText(v, keys)[0] != '}'
    decreases v, 1, |keys|
  {
    hide ReadValue, ReadFields, Text, Escaped, Written;
    var key, value := keys[0], v.fields[keys[0]];
    var first := Quoted(key) + ":" + Text(value);
    if |keys| == 1 {
      TextReads(value, "}" + rest, parse);
      FieldReads(key, value, map[], "}" + rest, rest, parse);
      assert FieldsText(v, keys) + "}" + rest == first + ("}" + rest);
      assert Picked(v.fields, keys) == map[][key := value];
    } else {
      var more := FieldsText(v, keys[1..]) + "}" + rest;
      TextReads(value, "," + more, parse);
      FieldsRead(v, keys[1..], rest, parse);
      FieldReads(key, value, Picked(v.fields, keys[1..]), "," + more, rest, parse);
      assert FieldsText(v, keys) + "}" + rest == first + ("," + more);
      PickedOneMore(v.fields, keys);
    }
  }

  /** Reading gives back what was printed, and so no two values print the same. */
  lemma TextTellsApart(a: Value, b: Value, parse: string -> real)
    requires Written(a, parse) && Written(b, parse)
    ensures Text(a) == Text(b) <==> a == b
  {
    TextReads(a, "", parse);
    TextReads(b, "", parse);
    assert Text(a) + "" == Text(a) && Text(b) + "" == Text(b);
  }

  // ----- When sort values tie -----

  ghost predicate PrintsAs(a: Value, b: Value) {
    !a.Null? && !a.Str? && b.Str? && b.s == Text(a)
  }

  /** Two sort values tie exactly when they are numbers of the same value, or otherwise the
      same value, or one is a string that spells the other. */
  lemma TiesExactlyWhen(a: Value, b: Value, parse: string -> real)
    requires Written(a, parse) && Written(b, parse)
    ensures CompareValues(a, b) == Same <==>
      if a.Number? && b.Number? then a.value == b.value else a == b || PrintsAs(a, b) || PrintsAs(b, a)
  {
    hide Text, Written;
    TextTellsApart(a, b, parse);
    if !a.Null? && !b.Null? && !(a.Number? && b.Number?) {
      ComparesByText(a, b);
    }
  }
}
