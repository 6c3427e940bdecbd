/**
 * A string-valued field of a parsed JSON request body, as an Express handler
 * sees it after `express.json()`: the key may be missing (`undefined`), be
 * `null`, or hold a string.
 */
module Json {

  datatype JsonField = Absent | Null | Str(s: string) {

    /** JavaScript truthiness of the field: only a non-empty string is truthy. */
    predicate Truthy() {
      Str? && s != ""
    }
  }
}
