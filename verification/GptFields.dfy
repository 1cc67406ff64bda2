/** Comma-separated `key=value` lists, as the partition layout of the `gpt` command uses them. */
module GptFields {
  import opened CText

  /** The value of the first field with that key; none if the key is missing or has no '='. */
  function ValueOf(s: string, key: string): Option<string>
    decreases |s|
  {
    var field := Until(s, ',');
    if Until(field, '=') == key then After(field, '=')
    else match After(s, ',')
      case None => None
      case Some(rest) => ValueOf(rest, key)
  }

  predicate HasKey(s: string, key: string)
    decreases |s|
  {
    Until(s, ',') == key || (After(s, ',').Some? && HasKey(After(s, ',').value, key))
  }

  method ExtractVal(str: string, key: string) returns (r: Option<string>)
    ensures r == ValueOf(str, key)
  {
    var s := Some(str);
    while s.Some?
      invariant s.Some? ==> ValueOf(s.value, key) == ValueOf(str, key)
      invariant s.None? ==> ValueOf(str, key) == None
      decreases if s.Some? then |s.value| + 1 else 0
    {
      var v;
      v, s := StrSep(s.value, ',');
      var k, value := StrSep(v, '=');
      if k == key {
        return value;
      }
    }
    r := None;
  }

  method FoundKey(str: string, key: string) returns (found: bool)
    ensures found == HasKey(str, key)
  {
    var s := Some(str);
    while s.Some?
      invariant HasKey(str, key) == (s.Some? && HasKey(s.value, key))
      decreases if s.Some? then |s.value| + 1 else 0
    {
      var k;
      k, s := StrSep(s.value, ',');
      if k == key {
        return true;
      }
    }
    found := false;
  }

  // ----- against lists of fields

  datatype Field = Field(key: string, value: string)

  predicate Clean(f: Field) {
    ',' !in f.key && '=' !in f.key && ',' !in f.value
  }

  function Text(f: Field): string {
    f.key + "=" + f.value
  }

  function Joined(fs: seq<Field>): string
    requires fs != []
  {
    if |fs| == 1 then Text(fs[0]) else Text(fs[0]) + "," + Joined(fs[1..])
  }

  function Lookup(fs: seq<Field>, key: string): Option<string> {
    if fs == [] then None else if fs[0].key == key then Some(fs[0].value) else Lookup(fs[1..], key)
  }

  lemma FirstField(fs: seq<Field>)
    requires fs != [] && Clean(fs[0])
    ensures Until(Joined(fs), ',') == Text(fs[0])
    ensures After(Joined(fs), ',') == if |fs| == 1 then None else Some(Joined(fs[1..]))
  {
    if |fs| == 1 {
      CutNone(Text(fs[0]), ',');
    } else {
      CutAt(Text(fs[0]), ',', Joined(fs[1..]));
    }
  }

  lemma FieldParts(f: Field)
    requires Clean(f)
    ensures Until(Text(f), '=') == f.key && After(Text(f), '=') == Some(f.value)
  {
    CutAt(f.key, '=', f.value);
  }

  /** Extracting from the text of a list of fields is looking the key up in the list. */
  lemma {:induction false} ValueOfJoined(fs: seq<Field>, key: string)
    requires fs != [] && forall i :: 0 <= i < |fs| ==> Clean(fs[i])
    ensures ValueOf(Joined(fs), key) == Lookup(fs, key)
  {
    FirstField(fs);
    FieldParts(fs[0]);
    if |fs| > 1 {
      ValueOfJoined(fs[1..], key);
    }
  }

  /** A field with a value is never taken for a bare key. */
  lemma {:induction false} NoBareKey(fs: seq<Field>, key: string)
    requires fs != [] && '=' !in key && forall i :: 0 <= i < |fs| ==> Clean(fs[i])
    ensures !HasKey(Joined(fs), key)
  {
    FirstField(fs);
    assert Text(fs[0])[|fs[0].key|] == '=';
    if |fs| > 1 {
      NoBareKey(fs[1..], key);
    }
  }

  /** A value that holds a comma comes back cut at it, whatever follows. */
  lemma CutValue(key: string, value: string, more: string)
    requires ',' !in key && '=' !in key
    ensures ValueOf(key + "=" + value + "," + more, key) == Some(Until(value, ','))
    ensures Until(value, ',') == value <==> ',' !in value
  {
    var head := key + "=";
    var tail := value + "," + more;
    assert key + "=" + value + "," + more == head + tail;
    CutAppend(head, ',', tail);
    CutParts(value, ',');
    if ',' !in value {
      CutNone(value, ',');
      CutAt(value, ',', more);
    } else {
      var rest := After(value, ',').value;
      CutAt(Until(value, ','), ',', rest + "," + more);
      assert tail == Until(value, ',') + "," + (rest + "," + more);
    }
    CutAt(key, '=', Until(value, ','));
    assert head + Until(value, ',') == key + "=" + Until(value, ',');
  }
}
