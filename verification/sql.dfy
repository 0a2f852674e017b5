/**
  SQLite values as the Python scripts see them, and the `preferences` row that
  both the schema initialiser and the migration produce.
 */
module Sql {

  /** A column value read through `sqlite3`, one case per SQLite storage
      class: NULL, an integer, a floating-point number (as an exact real), a
      text or a blob. */
  datatype Value = Null | Int(i: int) | Real(r: real) | Text(s: string) | Blob(bytes: seq<bv8>)

  /** Python truthiness of a column value (`if v:`, `v or default`). */
  predicate Truthy(v: Value) {
    match v
    case Null => false
    case Int(i) => i != 0
    case Real(r) => r != 0.0
    case Text(s) => |s| > 0
    case Blob(b) => |b| > 0
  }

  /** One row of the `preferences` table, without its surrogate `id`. */
  datatype PrefRow = PrefRow(userId: int, language: Value, theme: Value, brushSize: Value, notifications: Value)

  const DefaultLanguage: string := "en"
  const DefaultTheme: string := "bee"
  const DefaultBrushSize: int := 30

  /** The row inserted for a user who has none: `('en', 'bee', 30, 1)`. */
  function DefaultPrefs(userId: int): PrefRow {
    PrefRow(userId, Text(DefaultLanguage), Text(DefaultTheme), Int(DefaultBrushSize), Int(1))
  }
}
