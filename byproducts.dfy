/** The byproducts of a link: the exit code, the captured standard error and
    standard output of the step's command, and an open set of extension
    fields. Values are built by chaining setters that each return an updated
    copy, and are carried on the wire as one flat JSON object in which the
    extension fields sit beside the three fixed ones. */
module Byproducts {
  import opened Wrappers
  import opened Decimal

  /** Wire names of the fixed fields. */
  const RETURN_VALUE: string := "return-value"
  const STDERR: string := "stderr"
  const STDOUT: string := "stdout"
  const FixedKeys: set<string> := {RETURN_VALUE, STDERR, STDOUT}

  datatype ByProducts = ByProducts(
    returnValue: i32,
    stderr: string,
    stdout: string,
    otherFields: map<string, string>)
  {
    function SetReturnValue(v: i32): (r: ByProducts)
      ensures r.returnValue == v
      ensures r.stderr == stderr && r.stdout == stdout && r.otherFields == otherFields
    {
      this.(returnValue := v)
    }

    function SetStderr(s: string): (r: ByProducts)
      ensures r.stderr == s
      ensures r.returnValue == returnValue && r.stdout == stdout && r.otherFields == otherFields
    {
      this.(stderr := s)
    }

    function SetStdout(s: string): (r: ByProducts)
      ensures r.stdout == s
      ensures r.returnValue == returnValue && r.stderr == stderr && r.otherFields == otherFields
    {
      this.(stdout := s)
    }

    /** Replaces the whole extension map, dropping every earlier extension field. */
    function SetOtherFields(m: map<string, string>): (r: ByProducts)
      ensures r.otherFields == m
      ensures r.returnValue == returnValue && r.stderr == stderr && r.stdout == stdout
    {
      this.(otherFields := m)
    }

    /** Adds one extension field, overwriting an earlier value under the same key. */
    function SetOtherField(key: string, value: string): (r: ByProducts)
      ensures r.otherFields.Keys == otherFields.Keys + {key}
      ensures r.otherFields[key] == value
      ensures forall k :: k in otherFields && k != key ==> r.otherFields[k] == otherFields[k]
      ensures r.returnValue == returnValue && r.stderr == stderr && r.stdout == stdout
    {
      this.(otherFields := otherFields[key := value])
    }

    function ReturnValue(): i32 { returnValue }

    function Stderr(): string { stderr }

    function Stdout(): string { stdout }

    function OtherFields(): map<string, string> { otherFields }
  }

  function New(): (b: ByProducts)
    ensures b.returnValue == 0 && b.stderr == "" && b.stdout == "" && b.otherFields == map[]
  {
    ByProducts(0, "", "", map[])
  }

  /** Each getter returns what the last corresponding setter stored, and a
      setter leaves what the other getters return alone. */
  lemma GettersReturnLastSet(b: ByProducts, v: i32, s: string, m: map<string, string>, k: string)
    ensures b.SetReturnValue(v).ReturnValue() == v
    ensures b.SetStderr(s).Stderr() == s
    ensures b.SetStdout(s).Stdout() == s
    ensures b.SetOtherFields(m).OtherFields() == m
    ensures b.SetOtherField(k, s).OtherFields() == b.OtherFields()[k := s]
    ensures b.SetStdout(s).ReturnValue() == b.ReturnValue()
    ensures b.SetReturnValue(v).Stdout() == b.Stdout() && b.SetReturnValue(v).Stderr() == b.Stderr()
    ensures b.SetOtherFields(m).Stdout() == b.Stdout() && b.SetOtherField(k, s).Stderr() == b.Stderr()
  {
  }

  /** Setting a fixed field twice is the same as setting it once to the last
      value; setting it twice to one value is the same as setting it once. */
  lemma FixedSettersLastWriteWins(b: ByProducts, v1: i32, v2: i32, s1: string, s2: string)
    ensures b.SetReturnValue(v1).SetReturnValue(v2) == b.SetReturnValue(v2)
    ensures b.SetStderr(s1).SetStderr(s2) == b.SetStderr(s2)
    ensures b.SetStdout(s1).SetStdout(s2) == b.SetStdout(s2)
    ensures b.SetReturnValue(v1).SetReturnValue(v1) == b.SetReturnValue(v1)
    ensures b.SetStderr(s1).SetStderr(s1) == b.SetStderr(s1)
    ensures b.SetStdout(s1).SetStdout(s1) == b.SetStdout(s1)
  {
  }

  /** A bulk replace discards every extension field inserted before it, and
      inserting after a bulk replace is inserting into the new map. */
  lemma BulkReplaceDiscardsEarlierFields(b: ByProducts, k: string, v: string, m: map<string, string>)
    ensures b.SetOtherField(k, v).SetOtherFields(m) == b.SetOtherFields(m)
    ensures b.SetOtherFields(m).SetOtherField(k, v) == b.SetOtherFields(m[k := v])
  {
  }

  /** Inserting two extension fields one by one into an empty extension map
      gives the same value as setting both at once. */
  lemma InsertedFieldsEqualBulkFields(b: ByProducts, k1: string, v1: string, k2: string, v2: string)
    requires b.otherFields == map[]
    requires k1 != k2
    ensures b.SetOtherField(k1, v1).SetOtherField(k2, v2) == b.SetOtherFields(map[k1 := v1, k2 := v2])
    ensures b.SetOtherField(k1, v1).SetOtherField(k2, v2) == b.SetOtherField(k2, v2).SetOtherField(k1, v1)
  {
  }

  // ---------------------------------------------------------------------------
  // The flat JSON form

  datatype JsonValue =
    | JNull
    | JBool(b: bool)
    | JNumber(n: int)
    | JString(s: string)
    | JArray(items: seq<JsonValue>)
    | JObject(fields: map<string, JsonValue>)

  type JsonObject = map<string, JsonValue>

  datatype DecodeError =
    | MissingField(name: string)
    | InvalidType(name: string)
    | InvalidValue(name: string)
    | ExtensionNotAString

  /** No extension key collides with a fixed field's wire name. */
  predicate NoReservedKeys(m: map<string, string>) {
    m.Keys !! FixedKeys
  }

  /** The fixed fields are written first and the extension fields after them
      into the same object, so an extension key equal to a fixed name takes
      that name's place. */
  function Serialize(b: ByProducts): (obj: JsonObject)
    ensures obj.Keys == FixedKeys + b.otherFields.Keys
    ensures forall k :: k in b.otherFields ==> obj[k] == JString(b.otherFields[k])
    ensures RETURN_VALUE !in b.otherFields ==> obj[RETURN_VALUE] == JNumber(b.returnValue)
    ensures STDERR !in b.otherFields ==> obj[STDERR] == JString(b.stderr)
    ensures STDOUT !in b.otherFields ==> obj[STDOUT] == JString(b.stdout)
  {
    var fixed := map[RETURN_VALUE := JNumber(b.returnValue), STDERR := JString(b.stderr), STDOUT := JString(b.stdout)];
    fixed + map k | k in b.otherFields :: JString(b.otherFields[k])
  }

  /** Every key that is not a fixed field carries a string. */
  predicate ExtensionsAreStrings(obj: JsonObject) {
    forall k :: k in obj && k !in FixedKeys ==> obj[k].JString?
  }

  /** The fixed fields are taken by name; every other key of the object goes
      into the extension map, whose values must be strings. */
  function Deserialize(obj: JsonObject): (r: Result<ByProducts, DecodeError>)
    ensures r.Success? ==> NoReservedKeys(r.value.otherFields)
    ensures r.Success? ==> obj.Keys == FixedKeys + r.value.otherFields.Keys
  {
    if RETURN_VALUE !in obj then Failure(MissingField(RETURN_VALUE))
    else if !obj[RETURN_VALUE].JNumber? then Failure(InvalidType(RETURN_VALUE))
    else if !IsI32(obj[RETURN_VALUE].n) then Failure(InvalidValue(RETURN_VALUE))
    else if STDERR !in obj then Failure(MissingField(STDERR))
    else if !obj[STDERR].JString? then Failure(InvalidType(STDERR))
    else if STDOUT !in obj then Failure(MissingField(STDOUT))
    else if !obj[STDOUT].JString? then Failure(InvalidType(STDOUT))
    else if !ExtensionsAreStrings(obj) then Failure(ExtensionNotAString)
    else
      var others := map k | k in obj && k !in FixedKeys :: obj[k].s;
      Success(ByProducts(obj[RETURN_VALUE].n, obj[STDERR].s, obj[STDOUT].s, others))
  }

  /** Decoding the flat form gives back the value, provided no extension key
      is a fixed field name. */
  lemma DeserializeSerialize(b: ByProducts)
    requires NoReservedKeys(b.otherFields)
    ensures Deserialize(Serialize(b)) == Success(b)
  {
    var obj := Serialize(b);
    var others := map k | k in obj && k !in FixedKeys :: obj[k].s;
    assert others == b.otherFields;
  }

  /** Whatever decodes is written back to the very object it came from. */
  lemma SerializeDeserialize(obj: JsonObject)
    requires Deserialize(obj).Success?
    ensures Serialize(Deserialize(obj).value) == obj
  {
  }

  /** An extension field named like a fixed field overwrites it in the flat
      form; decoding then moves it into the fixed field, so the value does not
      come back. */
  lemma ReservedStdoutKeyDoesNotRoundTrip()
    ensures Deserialize(Serialize(New().SetOtherField(STDOUT, "x"))) == Success(New().SetStdout("x"))
    ensures New().SetStdout("x") != New().SetOtherField(STDOUT, "x")
  {
  }

  /** An extension field named "return-value" replaces the number by a string,
      which no longer decodes. */
  lemma ReservedReturnValueKeyFailsToDecode(v: string)
    ensures Deserialize(Serialize(New().SetOtherField(RETURN_VALUE, v))) == Failure(InvalidType(RETURN_VALUE))
  {
  }

  /** The value built in the serialisation tests and the object they expect. */
  lemma SerializedExample()
    ensures Serialize(New().SetReturnValue(0).SetStderr("a foo.py\n").SetStdout("")
                .SetOtherField("key1", "value1").SetOtherField("key2", "value2"))
         == map["return-value" := JNumber(0), "stderr" := JString("a foo.py\n"), "stdout" := JString(""),
                "key1" := JString("value1"), "key2" := JString("value2")]
    ensures Deserialize(map["return-value" := JNumber(0), "stderr" := JString("a foo.py\n"), "stdout" := JString(""),
                            "key1" := JString("value1"), "key2" := JString("value2")])
         == Success(New().SetReturnValue(0).SetStderr("a foo.py\n").SetStdout("")
                      .SetOtherFields(map["key1" := "value1", "key2" := "value2"]))
  {
    var b := New().SetReturnValue(0).SetStderr("a foo.py\n").SetStdout("")
               .SetOtherFields(map["key1" := "value1", "key2" := "value2"]);
    assert NoReservedKeys(b.otherFields);
    DeserializeSerialize(b);
    assert New().SetReturnValue(0).SetStderr("a foo.py\n").SetStdout("")
             .SetOtherField("key1", "value1").SetOtherField("key2", "value2") == b;
  }
}
