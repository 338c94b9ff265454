/**
 * Vocabulary shared by every iteration of the Tiny blog: optional values,
 * request arguments, the outcomes a route handler can produce, the Flask
 * session, and Python's `str.strip`.
 */
module Common {

  datatype Option<T> = None | Some(value: T)

  datatype HttpMethod = GET | POST

  /** A query-string or form argument: missing, or present with its raw text. */
  datatype Arg = Absent | Given(raw: string)

  /** `request.args.get(name, default)` for a text argument. */
  function ArgOr(a: Arg, default: string): string
  {
    match a
    case Absent => default
    case Given(s) => s
  }

  /** A flashed message and its category. */
  datatype Flash = NoFlash | Flash(message: string, category: string)

  /** Where a redirect points: a named endpoint (`url_for`) with an optional argument, or a literal URL. */
  datatype Location = Endpoint(name: string, arg: Option<string>) | Url(url: string)

  /** An error that a handler appends to one form field before rendering the form again. */
  datatype FormError = FormError(field: string, message: string)

  /**
   * What a route handler returns. `Render` is a template with an optional
   * `message` variable and the errors the handler appended to the form;
   * `SignInRequired` is whatever the (unmodelled) `sign_in_required`
   * decorator answers to a visitor who is not signed in; `ServerError` is an
   * uncaught exception (HTTP 500).
   */
  datatype Response =
    | Render(template: string, message: Option<string>, errors: seq<FormError>)
    | Redirect(to: Location, flash: Flash)
    | SignInRequired
    | ServerError

  function Page(template: string): Response
  {
    Render(template, None, [])
  }

  function Home(): Location
  {
    Endpoint("home.index", None)
  }

  /** `redirect(next or fallback)`: an empty or missing `next` falls back. */
  function NextOr(next: Arg, fallback: Location): (r: Location)
    ensures next.Given? && next.raw != "" ==> r == Url(next.raw)
    ensures next.Absent? || next.raw == "" ==> r == fallback
  {
    if next.Given? && next.raw != "" then Url(next.raw) else fallback
  }

  /** The Flask session: a dictionary the handlers read, write and clear in place. */
  class Session {
    var data: map<string, string>

    constructor (initial: map<string, string>)
      ensures data == initial
    {
      data := initial;
    }

    /** `session.get(key)` is truthy: present and non-empty. */
    predicate Has(key: string)
      reads this
    {
      key in data && data[key] != ""
    }

    method Clear()
      modifies this
      ensures data == map[]
    {
      data := map[];
    }

    method Set(key: string, value: string)
      modifies this
      ensures data == old(data)[key := value]
    {
      data := data[key := value];
    }

    /** `session.pop(key, None)`: no error when the key is missing. */
    method Pop(key: string)
      modifies this
      ensures data == old(data) - {key}
    {
      data := data - {key};
    }
  }

  /** Python's `str.isspace` for a single character. */
  predicate IsSpace(c: char)
  {
    c == ' ' || '\t' <= c <= '\r' || '\U{1c}' <= c <= '\U{1f}' || c == '\U{85}' || c == '\U{a0}'
    || c == '\U{1680}' || '\U{2000}' <= c <= '\U{200a}' || c == '\U{2028}' || c == '\U{2029}'
    || c == '\U{202f}' || c == '\U{205f}' || c == '\U{3000}'
  }

  /** The index of the first non-whitespace character at or after `i` (or `|s|`). */
  function SkipSpaces(s: string, i: nat): (r: nat)
    requires i <= |s|
    ensures i <= r <= |s|
    ensures forall k :: i <= k < r ==> IsSpace(s[k])
    ensures r < |s| ==> !IsSpace(s[r])
    decreases |s| - i
  {
    if i < |s| && IsSpace(s[i]) then SkipSpaces(s, i + 1) else i
  }

  /** The end of `s[lo..j]` once its trailing whitespace is dropped. */
  function SkipSpacesBack(s: string, lo: nat, j: nat): (r: nat)
    requires lo <= j <= |s|
    ensures lo <= r <= j
    ensures forall k :: r <= k < j ==> IsSpace(s[k])
    ensures r > lo ==> !IsSpace(s[r - 1])
  {
    if j > lo && IsSpace(s[j - 1]) then SkipSpacesBack(s, lo, j - 1) else j
  }

  /**
   * `r` is what is left of `s` once `i` characters are cut from the front and
   * the rest past `r` from the back: everything cut is whitespace, and `r`
   * neither starts nor ends with whitespace.
   */
  predicate StripsTo(s: string, i: int, r: string)
  {
    && 0 <= i <= |s| - |r|
    && r == s[i..i + |r|]
    && (forall k :: 0 <= k < i ==> IsSpace(s[k]))
    && (forall k :: i + |r| <= k < |s| ==> IsSpace(s[k]))
    && (r != [] ==> !IsSpace(r[0]) && !IsSpace(r[|r| - 1]))
  }

  /** Python's `str.strip()` with no argument. */
  function Strip(s: string): (r: string)
    ensures exists i :: StripsTo(s, i, r)
    ensures r == [] <==> forall k :: 0 <= k < |s| ==> IsSpace(s[k])
  {
    var i := SkipSpaces(s, 0);
    var j := SkipSpacesBack(s, i, |s|);
    assert StripsTo(s, i, s[i..j]);
    assert j > i ==> s[i..j][0] == s[i];
    s[i..j]
  }
}
