/** One entry of an item's `metadata` array in the repository's REST answer:
    a JSON object with `key`, `value` and, sometimes, `language`. */
module Metadata {

  /** A member of that object as Python reads it: missing, JSON `null`, or a string. */
  datatype MetaValue = Absent | Null | Str(s: string)

  datatype MetaField = MetaField(key: MetaValue, value: MetaValue, language: MetaValue)

  /** `str(m.get("value", ""))`: a missing member reads as `""`, `null` prints as `"None"`. */
  function GetAsText(v: MetaValue): string {
    match v
    case Absent => ""
    case Null => "None"
    case Str(s) => s
  }

  /** `m.get(k) == t` (and `m[k] == t` once `k` is known to be present). */
  predicate Is(v: MetaValue, t: string) {
    v == Str(t)
  }
}
