/**
 * The JSON engine (Newtonsoft's JsonConvert) as a parameter, and the
 * decision the store takes on the text it reads back. `None` stands for
 * C#'s null (or `default(T)`); `deserialize` returns `None` also where
 * the engine throws.
 */
module ObjectCodec {
  import opened Wrappers
  import opened Text

  datatype Json<!T(!new)> = Json(serialize: Option<T> -> string, deserialize: string -> Option<T>) {
    /** What the store relies on: null is written as the text `null`, which
        reads back as null, and every value reads back as itself. */
    ghost predicate Lawful() {
      && serialize(None) == "null"
      && deserialize("null") == None
      && forall v :: deserialize(serialize(Some(v))) == Some(v)
    }
  }

  /** Texts that ReadObjectFileAsync answers with the default value
      without asking the engine. */
  predicate IsEmptyText(text: string) {
    IsBlank(text) || text == "[]" || text == "null"
  }

  /** The older base class only treats blank text and `{}` so. */
  predicate IsEmptyTextLegacy(text: string) {
    text == "{}" || IsBlank(text)
  }

  /** The object a read returns for the text found in the file. */
  function DecodeObject<T(!new)>(json: Json<T>, text: string): Option<T> {
    if IsEmptyText(text) then None else json.deserialize(text)
  }

  function DecodeObjectLegacy<T(!new)>(json: Json<T>, text: string): Option<T> {
    if IsEmptyTextLegacy(text) then None else json.deserialize(text)
  }

  /** Reading back what was serialized gives the value, except that null
      and a value whose text is blank, `[]` or `null` read as null. */
  lemma DecodeSerialized<T(!new)>(json: Json<T>, v: Option<T>)
    requires json.Lawful()
    ensures DecodeObject(json, json.serialize(v)) ==
            if v.None? || IsEmptyText(json.serialize(v)) then None else v
  {
    if v.Some? && !IsEmptyText(json.serialize(v)) {
      assert json.deserialize(json.serialize(Some(v.value))) == Some(v.value);
    }
  }

  /** The legacy policy reads back null for null (via the engine), and the
      value itself unless its text is blank or `{}`. */
  lemma DecodeSerializedLegacy<T(!new)>(json: Json<T>, v: Option<T>)
    requires json.Lawful()
    ensures DecodeObjectLegacy(json, json.serialize(v)) ==
            if IsEmptyTextLegacy(json.serialize(v)) then None else v
  {
    if v.Some? && !IsEmptyTextLegacy(json.serialize(v)) {
      assert json.deserialize(json.serialize(Some(v.value))) == Some(v.value);
    }
    if v.None? {
      assert "null"[0] == 'n' && !IsWhiteSpace('n');
    }
  }
}
