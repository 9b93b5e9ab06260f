/** Identifiers, handler responses and the two pieces of string handling the
    controllers rely on: JavaScript's `String.prototype.trim` (blank-text checks)
    and a case-insensitive substring test (the `$regex` with option "i"). */
module Common {

  /** A MongoDB ObjectId as it arrives in a route parameter or is stored. */
  type Id = string

  datatype Option<T> = None | Some(value: T)

  /** What a handler answers: a success status with a payload and a message, or
      the status and message of the `ApiError` it throws. */
  datatype Response<T> =
    | Ok(status: nat, value: T, message: string)
    | Err(status: nat, message: string)

  predicate IsHexDigit(c: char) {
    '0' <= c <= '9' || 'a' <= c <= 'f' || 'A' <= c <= 'F'
  }

  predicate IsLowerHexDigit(c: char) {
    '0' <= c <= '9' || 'a' <= c <= 'f'
  }

  /** The strings `isValidObjectId` / `ObjectId.isValid` accept: 24
      hexadecimal digits in either case. Mongoose casts both spellings of a
      digit to the same ObjectId. */
  predicate IsObjectIdString(s: string) {
    |s| == 24 && forall i :: 0 <= i < |s| ==> IsHexDigit(s[i])
  }

  /** The ids the handlers accept in this model: 24 lower-case hexadecimal
      digits, the spelling an ObjectId prints as. Upper-case spellings, which
      `isValidObjectId` also accepts, are left out. */
  predicate IsValidObjectId(s: string) {
    |s| == 24 && forall i :: 0 <= i < |s| ==> IsLowerHexDigit(s[i])
  }

  /** Two id strings name the same ObjectId: they agree once lower-cased. */
  predicate SameObjectId(a: Id, b: Id) {
    Lower(a) == Lower(b)
  }

  /** Every accepted id is a string `isValidObjectId` accepts, and for accepted
      ids naming the same ObjectId is string equality. */
  lemma ValidIdsCompareAsStrings(a: Id, b: Id)
    requires IsValidObjectId(a) && IsValidObjectId(b)
    ensures IsObjectIdString(a) && IsObjectIdString(b)
    ensures SameObjectId(a, b) <==> a == b
  {
  }

  /** The characters JavaScript's `trim` removes: WhiteSpace (including the
      Unicode space separators) and LineTerminator. */
  predicate IsJsWhitespace(c: char) {
    || c == '\t' || c == '\n' || c == '\U{000B}' || c == '\U{000C}' || c == '\r' || c == ' '
    || c == '\U{00A0}' || c == '\U{1680}' || ('\U{2000}' <= c <= '\U{200A}')
    || c == '\U{2028}' || c == '\U{2029}' || c == '\U{202F}' || c == '\U{205F}'
    || c == '\U{3000}' || c == '\U{FEFF}'
  }

  /** `s` drops its leading whitespace: the result is the suffix that starts at
      the first non-whitespace character. */
  function TrimStart(s: string): (r: string)
    ensures |r| <= |s| && r == s[|s| - |r|..]
    ensures forall i :: 0 <= i < |s| - |r| ==> IsJsWhitespace(s[i])
    ensures r != [] ==> !IsJsWhitespace(r[0])
  {
    if |s| > 0 && IsJsWhitespace(s[0]) then TrimStart(s[1..]) else s
  }

  /** `s` drops its trailing whitespace. */
  function TrimEnd(s: string): (r: string)
    ensures |r| <= |s| && r == s[..|r|]
    ensures forall i :: |r| <= i < |s| ==> IsJsWhitespace(s[i])
    ensures r != [] ==> !IsJsWhitespace(r[|r| - 1])
  {
    if |s| > 0 && IsJsWhitespace(s[|s| - 1]) then TrimEnd(s[..|s| - 1]) else s
  }

  /** JavaScript's `s.trim()`. The empty string is the only falsy string, so
      `!s.trim()` holds exactly when every character of `s` is whitespace. */
  function Trim(s: string): (r: string)
    ensures |r| <= |s|
    ensures r == "" <==> forall i :: 0 <= i < |s| ==> IsJsWhitespace(s[i])
  {
    var t := TrimStart(s);
    var r := TrimEnd(t);
    assert r != "" ==> !IsJsWhitespace(s[|s| - |t|]);
    r
  }

  function ToLowerAscii(c: char): char {
    if 'A' <= c <= 'Z' then (c as int - 'A' as int + 'a' as int) as char else c
  }

  function Lower(s: string): (r: string)
    ensures |r| == |s|
    ensures forall i :: 0 <= i < |s| ==> r[i] == ToLowerAscii(s[i])
  {
    seq(|s|, i requires 0 <= i < |s| => ToLowerAscii(s[i]))
  }

  /** `needle` stands in `hay` at position `i`. */
  predicate OccursAt(hay: string, needle: string, i: int) {
    0 <= i && i + |needle| <= |hay| && hay[i..i + |needle|] == needle
  }

  /** `needle` occurs in `hay` when letter case is ignored (the match a
      `$regex` with option "i" makes for a pattern without metacharacters). */
  predicate ContainsIgnoringCase(hay: string, needle: string) {
    exists i | 0 <= i <= |hay| :: OccursAt(Lower(hay), Lower(needle), i)
  }

  /** The search scenario of the catalog: the query "go" finds "Intro to Go"
      and "Advanced Go" but not "Rust Basics". */
  lemma QueryGoScenario()
    ensures ContainsIgnoringCase("Intro to Go", "go")
    ensures ContainsIgnoringCase("Advanced Go", "go")
    ensures !ContainsIgnoringCase("Rust Basics", "go")
  {
    var g := Lower("go");
    assert g == "go";
    var a := Lower("Intro to Go");
    assert a[9] == 'g' && a[10] == 'o';
    assert OccursAt(a, g, 9);
    var b := Lower("Advanced Go");
    assert b[9] == 'g' && b[10] == 'o';
    assert OccursAt(b, g, 9);
    var h := Lower("Rust Basics");
    assert h == "rust basics";
    assert 'g' !in h;
    forall i | 0 <= i <= |h| ensures !OccursAt(h, g, i) {
      if i + 2 <= |h| {
        assert h[i..i + 2][0] == h[i] && h[i] in h;
      }
    }
  }

  function Min(a: int, b: int): int { if a <= b then a else b }
  function Max(a: int, b: int): int { if a <= b then b else a }
}
