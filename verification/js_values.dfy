/** JavaScript value rules the rest of the model relies on: optional fields,
    truthiness of strings and numbers, and the `x || fallback` idiom. */
module JsValues {

  /** A field that may be absent (undefined), null or NULL: all three are `None`. */
  datatype Option<+T> = None | Some(value: T)

  /** `!!s` for an optional string: absent, null and the empty string are falsy. */
  predicate Present(s: Option<string>) {
    s.Some? && s.value != ""
  }

  /** `!!n` for an optional number: absent, null and zero are falsy. */
  predicate NumberPresent(n: Option<int>) {
    n.Some? && n.value != 0
  }

  /** `price || null`: a falsy price is stored as null, a truthy one unchanged. */
  function PriceOrNull(price: Option<int>): (r: Option<int>)
    ensures r.None? <==> !NumberPresent(price)
    ensures r.Some? ==> r == price && r.value != 0
  {
    if NumberPresent(price) then price else None
  }

  /** `notes || null`: falsy notes are stored as null, truthy ones unchanged. */
  function TextOrNull(text: Option<string>): (r: Option<string>)
    ensures r.None? <==> !Present(text)
    ensures r.Some? ==> r == text && r.value != ""
  {
    if Present(text) then text else None
  }

  /** `s || ''`: an absent or null string reads as the empty string. */
  function OrEmpty(s: Option<string>): (r: string)
    ensures Present(s) ==> r == s.value
    ensures !Present(s) ==> r == ""
  {
    if s.Some? then s.value else ""
  }
}
