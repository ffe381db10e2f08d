/**
 * The part of `fc::variant` / `fc::mutable_variant_object` that the help-text
 * code relies on: an object is an ordered list of (key, value) entries;
 * `obj(key, value)` appends an entry at the end without looking for an
 * existing one, and a lookup finds the first entry with the key.
 */
module VariantObjects {

  datatype Option<T> = None | Some(value: T)

  /** The variant values the help-text code stores: strings and integers. */
  datatype Variant = Str(s: string) | Int(i: int)

  datatype Entry = Entry(key: string, value: Variant)

  type VariantObject = seq<Entry>

  predicate HasKey(obj: VariantObject, key: string) {
    exists i :: 0 <= i < |obj| && obj[i].key == key
  }

  /** The value of the first entry named `key`, if any. */
  function Find(obj: VariantObject, key: string): (r: Option<Variant>)
    ensures r.None? <==> !HasKey(obj, key)
    ensures r.Some? ==> exists i :: 0 <= i < |obj| && obj[i] == Entry(key, r.value)
  {
    if |obj| == 0 then None
    else if obj[0].key == key then Some(obj[0].value)
    else
      assert forall i :: 1 <= i < |obj| ==> obj[i] == obj[1..][i - 1];
      Find(obj[1..], key)
  }

  /** Find returns the value of the first entry with the key. */
  lemma {:induction false} FindFirst(obj: VariantObject, key: string, i: nat)
    requires i < |obj| && obj[i].key == key
    requires forall j :: 0 <= j < i ==> obj[j].key != key
    ensures Find(obj, key) == Some(obj[i].value)
  {
    if i > 0 {
      FindFirst(obj[1..], key, i - 1);
    }
  }
}
