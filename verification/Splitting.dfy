/** Cutting text into fields at a separator: path segments and words of a line. */
module Splitting {
  import opened Bytes

  /** The fields between separators, empty ones included. */
  function Fields(separator: Byte, text: seq<Byte>): (fields: seq<seq<Byte>>)
    ensures |fields| > 0
  {
    if text == [] then [[]]
    else
      var rest := Fields(separator, text[1..]);
      if text[0] == separator then [[]] + rest else [[text[0]] + rest[0]] + rest[1..]
  }

  lemma {:induction false} FieldsAvoidSeparator(separator: Byte, text: seq<Byte>)
    ensures forall field :: field in Fields(separator, text) ==> separator !in field
  {
    if text != [] {
      FieldsAvoidSeparator(separator, text[1..]);
      var rest := Fields(separator, text[1..]);
      assert rest[0] in rest;
      assert forall field :: field in rest[1..] ==> field in rest;
    }
  }

  lemma FieldsCons(separator: Byte, head: Byte, tail: seq<Byte>)
    ensures Fields(separator, [head] + tail) ==
      if head == separator then [[]] + Fields(separator, tail)
      else [[head] + Fields(separator, tail)[0]] + Fields(separator, tail)[1..]
  {
    assert ([head] + tail)[1..] == tail;
  }

  /** A separator between two texts separates their fields. */
  lemma {:induction false} FieldsConcat(separator: Byte, a: seq<Byte>, b: seq<Byte>)
    ensures Fields(separator, a + [separator] + b) == Fields(separator, a) + Fields(separator, b)
  {
    if a == [] {
      assert a + [separator] + b == [separator] + b;
      FieldsCons(separator, separator, b);
    } else {
      var head, tail := a[0], a[1..] + [separator] + b;
      FieldsConcat(separator, a[1..], b);
      assert a + [separator] + b == [head] + tail && a == [head] + a[1..];
      FieldsCons(separator, head, tail);
      FieldsCons(separator, head, a[1..]);
      PrependToFirst(head, Fields(separator, a[1..]), Fields(separator, b));
    }
  }

  /** Prepending to the first field, or before it, commutes with appending fields. */
  lemma PrependToFirst(head: Byte, first: seq<seq<Byte>>, rest: seq<seq<Byte>>)
    requires first != []
    ensures [[]] + (first + rest) == ([[]] + first) + rest
    ensures [[head] + (first + rest)[0]] + (first + rest)[1..] == ([[head] + first[0]] + first[1..]) + rest
  {
  }

  /** Text without a separator is one field. */
  lemma {:induction false} FieldsSingle(separator: Byte, text: seq<Byte>)
    requires separator !in text
    ensures Fields(separator, text) == [text]
  {
    if text != [] {
      FieldsSingle(separator, text[1..]);
      assert [text[0]] + text[1..] == text;
    }
  }
}
