/**
 * JSON values as far as the device database looks at them. A string holds the bytes of its text, one character
 * each.
 */
module Json {
  import opened Wrappers

  datatype Json =
    | Text(text: string)
    | Object(fields: seq<Field>)
    | Array(elements: seq<Json>)
    | Other  // numbers, booleans and null

  datatype Field = Field(key: string, value: Json)

  function FirstWithKey(fields: seq<Field>, key: string): Option<Json> {
    if fields == [] then None
    else if fields[0].key == key then Some(fields[0].value)
    else FirstWithKey(fields[1..], key)
  }

  lemma {:induction false} FirstWithKeyAt(fields: seq<Field>, i: nat)
    requires i < |fields| && forall k :: 0 <= k < i ==> fields[k].key != fields[i].key
    ensures FirstWithKey(fields, fields[i].key) == Some(fields[i].value)
  {
    if i > 0 {
      FirstWithKeyAt(fields[1..], i - 1);
    }
  }

  /** The value under a key, which is compared case by case; nothing when the value is not an object. */
  function Get(j: Json, key: string): Option<Json> {
    if j.Object? then FirstWithKey(j.fields, key) else None
  }

  function GetString(j: Json, key: string): Option<string> {
    var value := Get(j, key);
    if value.Some? && value.value.Text? then Some(value.value.text) else None
  }

  /** No field before position i has the key. */
  ghost predicate NoneBefore(fields: seq<Field>, key: string, i: nat)
    requires i <= |fields|
  {
    forall k :: 0 <= k < i ==> fields[k].key != key
  }

  /** Nothing exactly when no field has the key; otherwise the value of the first that has it. */
  lemma {:induction false} FirstWithKeyMeans(fields: seq<Field>, key: string) returns (i: nat)
    ensures i <= |fields| && NoneBefore(fields, key, i)
    ensures if i == |fields| then FirstWithKey(fields, key) == None
            else fields[i].key == key && FirstWithKey(fields, key) == Some(fields[i].value)
  {
    if fields == [] || fields[0].key == key {
      i := 0;
    } else {
      var j := FirstWithKeyMeans(fields[1..], key);
      i := j + 1;
      assert forall k :: 0 < k < i ==> fields[k] == fields[1..][k - 1];
    }
  }

  function Lower(c: char): char {
    if 'A' <= c <= 'Z' then (c as int + 32) as char else c
  }

  /** Equality of ASCII text without regard to case. */
  predicate EqualIgnoringCase(s: string, t: string) {
    |s| == |t| && forall i :: 0 <= i < |s| ==> Lower(s[i]) == Lower(t[i])
  }

  const CAPITALS: string := "ABCDEFGHIJKLMNOPQRSTUVWXYZ"
  const SMALL: string := "abcdefghijklmnopqrstuvwxyz"

  /** One character is a capital letter and the other the same letter, small. */
  predicate DiffersInCase(c: char, d: char) {
    exists i :: 0 <= i < 26 && ((c == CAPITALS[i] && d == SMALL[i]) || (c == SMALL[i] && d == CAPITALS[i]))
  }

  lemma LettersAt(i: nat)
    requires i < 26
    ensures CAPITALS[i] as int == 65 + i && SMALL[i] as int == 97 + i
  {
  }

  lemma SmallLetter(c: char)
    requires 'A' <= c <= 'Z'
    ensures exists i :: 0 <= i < 26 && c == CAPITALS[i] && Lower(c) == SMALL[i]
  {
    LettersAt(c as int - 65);
  }

  lemma DiffersInCaseMeans(c: char, d: char)
    requires DiffersInCase(c, d)
    ensures Lower(c) == Lower(d)
  {
    var i :| 0 <= i < 26 && ((c == CAPITALS[i] && d == SMALL[i]) || (c == SMALL[i] && d == CAPITALS[i]));
    LettersAt(i);
  }

  lemma SameLowerMeans(c: char, d: char)
    ensures Lower(c) == Lower(d) <==> c == d || DiffersInCase(c, d)
  {
    if DiffersInCase(c, d) {
      DiffersInCaseMeans(c, d);
    } else if 'A' <= c <= 'Z' {
      SmallLetter(c);
    } else if 'A' <= d <= 'Z' {
      SmallLetter(d);
    }
  }

  /** Place by place the characters are the same, or the same letter in another case. */
  lemma IgnoringCaseMeans(s: string, t: string)
    ensures EqualIgnoringCase(s, t)
            <==> |s| == |t| && forall i :: 0 <= i < |s| ==> s[i] == t[i] || DiffersInCase(s[i], t[i])
  {
    forall i | 0 <= i < |s| && i < |t|
      ensures Lower(s[i]) == Lower(t[i]) <==> s[i] == t[i] || DiffersInCase(s[i], t[i])
    {
      SameLowerMeans(s[i], t[i]);
    }
  }
}
