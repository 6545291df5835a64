/** Redaction of credentials before anything is logged (`maskSensitiveData` in src/utils.js).

    The source deep-copies its argument with a JSON round trip and masks the copy in place.
    Here values are immutable, so the copy is implicit and the caller's value can never change;
    the in-place walk becomes a structural recursion that builds the masked value. */
module Redact {
  import opened Json
  import opened Text

  /** Substrings that make a key sensitive, matched against the lower-cased key. */
  const Keywords: seq<string> := ["token", "password", "signature", "zelidauth", "zelid", "loginphrase"]

  /** The value that replaces a sensitive member. */
  const Marker: string := "[REDACTED]"

  predicate IsSensitiveKey(key: string) {
    exists k :: 0 <= k < |Keywords| && Contains(Lower(key), Keywords[k])
  }

  /** `maskSensitiveData(data)`. */
  function Mask(j: Json): (r: Json)
    decreases j, 1
    ensures !IsObjectLike(j) ==> r == j
    ensures j.JArr? ==> r.JArr? && |r.items| == |j.items|
    ensures j.JObj? ==> r.JObj? && Keys(r.fields) == Keys(j.fields)
  {
    match j
    case JArr(items) => JArr(MaskItems(items))
    case JObj(fields) => JObj(MaskFields(fields))
    case _ => j
  }

  function MaskItems(items: seq<Json>): (r: seq<Json>)
    decreases items, 0
    ensures |r| == |items|
  {
    if |items| == 0 then [] else [Mask(items[0])] + MaskItems(items[1..])
  }

  function MaskFields(fields: seq<Field>): (r: seq<Field>)
    decreases fields, 0
    ensures Keys(r) == Keys(fields)
  {
    if |fields| == 0 then []
    else
      var f := fields[0];
      var g := if IsSensitiveKey(f.key) then Field(f.key, JStr(Marker)) else Field(f.key, Mask(f.value));
      [g] + MaskFields(fields[1..])
  }

  /** The relational description of masking: `r` has the shape of `j`, every sensitive member
      at any depth holds the marker whatever it held before, and everything else is kept. */
  ghost predicate MaskedFrom(j: Json, r: Json)
    decreases j
  {
    match j
    case JArr(items) =>
      && r.JArr? && |r.items| == |items|
      && forall i :: 0 <= i < |items| ==> MaskedFrom(items[i], r.items[i])
    case JObj(fields) =>
      && r.JObj? && |r.fields| == |fields|
      && forall i :: 0 <= i < |fields| ==>
           && r.fields[i].key == fields[i].key
           && (if IsSensitiveKey(fields[i].key) then r.fields[i].value == JStr(Marker)
               else MaskedFrom(fields[i].value, r.fields[i].value))
    case _ => r == j
  }

  /** A value with no credential left in it: every sensitive member at any depth holds the marker. */
  ghost predicate Clean(j: Json)
    decreases j
  {
    match j
    case JArr(items) => forall i :: 0 <= i < |items| ==> Clean(items[i])
    case JObj(fields) =>
      forall i :: 0 <= i < |fields| ==>
        if IsSensitiveKey(fields[i].key) then fields[i].value == JStr(Marker) else Clean(fields[i].value)
    case _ => true
  }

  // ---------------------------------------------------------------------------
  // Lemmas

  lemma {:induction false} MaskItemsAt(items: seq<Json>, i: int)
    requires 0 <= i < |items|
    ensures MaskItems(items)[i] == Mask(items[i])
  {
    if i > 0 {
      MaskItemsAt(items[1..], i - 1);
    }
  }

  lemma {:induction false} MaskFieldsAt(fields: seq<Field>, i: int)
    requires 0 <= i < |fields|
    ensures MaskFields(fields)[i].key == fields[i].key
    ensures IsSensitiveKey(fields[i].key) ==> MaskFields(fields)[i].value == JStr(Marker)
    ensures !IsSensitiveKey(fields[i].key) ==> MaskFields(fields)[i].value == Mask(fields[i].value)
  {
    if i > 0 {
      MaskFieldsAt(fields[1..], i - 1);
    }
  }

  /** `Mask` meets the relational description. */
  lemma {:induction false} MaskMeetsSpec(j: Json)
    ensures MaskedFrom(j, Mask(j))
    decreases j
  {
    match j
    case JArr(items) =>
      forall i | 0 <= i < |items|
        ensures MaskedFrom(items[i], Mask(j).items[i])
      {
        MaskItemsAt(items, i);
        MaskMeetsSpec(items[i]);
      }
    case JObj(fields) =>
      forall i | 0 <= i < |fields|
        ensures Mask(j).fields[i].key == fields[i].key
        ensures if IsSensitiveKey(fields[i].key) then Mask(j).fields[i].value == JStr(Marker)
                else MaskedFrom(fields[i].value, Mask(j).fields[i].value)
      {
        MaskFieldsAt(fields, i);
        if !IsSensitiveKey(fields[i].key) {
          MaskMeetsSpec(fields[i].value);
        }
      }
    case _ =>
  }

  /** Only `Mask` meets the relational description. */
  lemma {:induction false} SpecDeterminesMask(j: Json, r: Json)
    requires MaskedFrom(j, r)
    ensures r == Mask(j)
    decreases j
  {
    match j
    case JArr(items) =>
      forall i | 0 <= i < |items|
        ensures r.items[i] == MaskItems(items)[i]
      {
        MaskItemsAt(items, i);
        SpecDeterminesMask(items[i], r.items[i]);
      }
    case JObj(fields) =>
      forall i | 0 <= i < |fields|
        ensures r.fields[i] == MaskFields(fields)[i]
      {
        MaskFieldsAt(fields, i);
        if !IsSensitiveKey(fields[i].key) {
          SpecDeterminesMask(fields[i].value, r.fields[i].value);
        }
      }
    case _ =>
  }

  /** Masking is exactly the transformation the relational description allows: in both directions. */
  lemma MaskCharacterised(j: Json, r: Json)
    ensures MaskedFrom(j, r) <==> r == Mask(j)
  {
    MaskMeetsSpec(j);
    if MaskedFrom(j, r) {
      SpecDeterminesMask(j, r);
    }
  }

  /** After masking, no sensitive member at any depth holds anything but the marker. */
  lemma {:induction false} MaskIsClean(j: Json)
    ensures Clean(Mask(j))
    decreases j
  {
    match j
    case JArr(items) =>
      forall i | 0 <= i < |items|
        ensures Clean(Mask(j).items[i])
      {
        MaskItemsAt(items, i);
        MaskIsClean(items[i]);
      }
    case JObj(fields) =>
      forall i | 0 <= i < |fields| && !IsSensitiveKey(fields[i].key)
        ensures Clean(Mask(j).fields[i].value)
      {
        MaskFieldsAt(fields, i);
        MaskIsClean(fields[i].value);
      }
      forall i | 0 <= i < |fields|
        ensures Mask(j).fields[i].key == fields[i].key
        ensures IsSensitiveKey(fields[i].key) ==> Mask(j).fields[i].value == JStr(Marker)
      {
        MaskFieldsAt(fields, i);
      }
    case _ =>
  }

  lemma {:induction false} CleanMasksToItself(j: Json)
    requires Clean(j)
    ensures MaskedFrom(j, j)
    decreases j
  {
    match j
    case JArr(items) =>
      forall i | 0 <= i < |items|
        ensures MaskedFrom(items[i], items[i])
      {
        CleanMasksToItself(items[i]);
      }
    case JObj(fields) =>
      forall i | 0 <= i < |fields| && !IsSensitiveKey(fields[i].key)
        ensures MaskedFrom(fields[i].value, fields[i].value)
      {
        CleanMasksToItself(fields[i].value);
      }
    case _ =>
  }

  /** The values masking leaves unchanged are exactly the clean ones. */
  lemma CleanIffFixedPoint(j: Json)
    ensures Clean(j) <==> Mask(j) == j
  {
    if Clean(j) {
      CleanMasksToItself(j);
      SpecDeterminesMask(j, j);
    }
    if Mask(j) == j {
      MaskIsClean(j);
    }
  }

  /** Masking twice is masking once. */
  lemma MaskIdempotent(j: Json)
    ensures Mask(Mask(j)) == Mask(j)
  {
    MaskIsClean(j);
    CleanIffFixedPoint(Mask(j));
  }
}
