/**
 * The add-bookmark form check (`validateForm`): one message per field, the
 * first failing test of that field, and a flag that is true exactly when
 * neither field has a message.
 *
 * Strings are sequences of Unicode scalar values. JavaScript's `length`
 * counts UTF-16 code units, so it is modelled by `Utf16Length`. The URL
 * constructor is not modelled; it is the parameter `parses`, true when
 * `new URL(s)` returns instead of throwing.
 */
module Validation {

  /** The messages `validateForm` can put into a field; `NoError` is the empty string. */
  datatype FieldError =
    | NoError
    | TitleRequired
    | TitleTooShort
    | UrlRequired
    | UrlBadScheme
    | UrlInvalid
  {
    /** The text shown under the field. */
    function Message(): string {
      match this
      case NoError => ""
      case TitleRequired => "Title is required"
      case TitleTooShort => "Title must be at least 3 characters"
      case UrlRequired => "URL is required"
      case UrlBadScheme => "URL must start with http:// or https://"
      case UrlInvalid => "Please enter a valid URL"
    }
  }

  /** Distinct errors show distinct texts, and only `NoError` shows nothing. */
  lemma MessagesDistinct(e: FieldError, f: FieldError)
    ensures e.Message() == "" <==> e == NoError
    ensures e.Message() == f.Message() <==> e == f
  {
  }

  /** The `newErrors` object: one message per field. */
  datatype FieldErrors = FieldErrors(title: FieldError, url: FieldError)

  /**
   * The code points `String.prototype.trim` strips: ECMAScript's WhiteSpace
   * (tab, vertical tab, form feed, ZWNBSP and the Zs category) and
   * LineTerminator (LF, CR, LS, PS).
   */
  predicate IsTrimmable(c: char) {
    c == '\U{9}' || c == '\U{B}' || c == '\U{C}' || c == '\U{FEFF}'
    || c == ' ' || c == '\U{A0}' || c == '\U{1680}' || ('\U{2000}' <= c <= '\U{200A}')
    || c == '\U{202F}' || c == '\U{205F}' || c == '\U{3000}'
    || c == '\n' || c == '\r' || c == '\U{2028}' || c == '\U{2029}'
  }

  /** `r` occurs in `s` starting at index `i`. */
  predicate IsInfixAt(r: string, s: string, i: int) {
    0 <= i <= |s| - |r| && s[i..i + |r|] == r
  }

  /**
   * The first index at or after `i` whose code point is not trimmable, or
   * `|s|` when there is none: the left end of the trimmed string.
   */
  function FirstKept(s: string, i: nat): (n: nat)
    requires i <= |s|
    ensures i <= n <= |s|
    ensures forall k :: i <= k < n ==> IsTrimmable(s[k])
    ensures n == |s| || !IsTrimmable(s[n])
    decreases |s| - i
  {
    if i == |s| || !IsTrimmable(s[i]) then i else FirstKept(s, i + 1)
  }

  /**
   * Scanning down from `j` to no lower than `lo`, the index just past the last
   * code point that is not trimmable: the right end of the trimmed string.
   */
  function EndKept(s: string, lo: nat, j: nat): (n: nat)
    requires lo <= j <= |s|
    ensures lo <= n <= j
    ensures forall k :: n <= k < j ==> IsTrimmable(s[k])
    ensures n == lo || !IsTrimmable(s[n - 1])
    decreases j - lo
  {
    if j == lo || !IsTrimmable(s[j - 1]) then j else EndKept(s, lo, j - 1)
  }

  /**
   * `r` occurs in `s` at index `i`, and everything of `s` before and after
   * that occurrence is trimmable.
   */
  predicate TrimmedAt(r: string, s: string, i: int) {
    IsInfixAt(r, s, i)
    && (forall k :: 0 <= k < i ==> IsTrimmable(s[k]))
    && (forall k :: i + |r| <= k < |s| ==> IsTrimmable(s[k]))
  }

  /**
   * `s.trim()`: the infix of `s` that is left once the leading and trailing
   * trimmable code points are gone. It is empty exactly when every code
   * point of `s` is trimmable.
   */
  function Trim(s: string): (r: string)
    ensures exists i :: TrimmedAt(r, s, i)
    ensures r == [] || (!IsTrimmable(r[0]) && !IsTrimmable(r[|r| - 1]))
    ensures r == [] <==> forall k :: 0 <= k < |s| ==> IsTrimmable(s[k])
  {
    var i := FirstKept(s, 0);
    var j := EndKept(s, i, |s|);
    assert TrimmedAt(s[i..j], s, i);
    s[i..j]
  }

  /** Trimming twice is trimming once. */
  lemma TrimIdempotent(s: string)
    ensures Trim(Trim(s)) == Trim(s)
  {
    TrimNoEnds(Trim(s));
  }

  /** A string that neither starts nor ends with a trimmable code point is its own trim. */
  lemma TrimNoEnds(s: string)
    requires s == [] || (!IsTrimmable(s[0]) && !IsTrimmable(s[|s| - 1]))
    ensures Trim(s) == s
  {
    assert FirstKept(s, 0) == 0;
    assert EndKept(s, 0, |s|) == |s|;
    assert s[0..|s|] == s;
  }

  /** `s.length`: the number of UTF-16 code units of `s`. */
  function Utf16Length(s: string): (n: nat)
    ensures |s| <= n <= 2 * |s|
    ensures (forall k :: 0 <= k < |s| ==> s[k] as int <= 0xFFFF) ==> n == |s|
  {
    if s == [] then 0
    else CodeUnits(s[0]) + Utf16Length(s[1..])
  }

  /** A code point above U+FFFF is a surrogate pair: two code units; any other is one. */
  function CodeUnits(c: char): nat {
    if c as int > 0xFFFF then 2 else 1
  }

  /** The UTF-16 length of a concatenation is the sum of the lengths of its parts. */
  lemma {:induction false} Utf16LengthAppend(a: string, b: string)
    ensures Utf16Length(a + b) == Utf16Length(a) + Utf16Length(b)
    decreases |a|
  {
    if a == [] {
      assert a + b == b;
    } else {
      assert (a + b)[0] == a[0] && (a + b)[1..] == a[1..] + b;
      Utf16LengthAppend(a[1..], b);
    }
  }

  /**
   * The exact count, read from the end: the length of `s + [c]` adds the code
   * units of `c` to the length of `s`, so every astral code point adds two.
   */
  lemma Utf16LengthSnoc(s: string, c: char)
    ensures Utf16Length(s + [c]) == Utf16Length(s) + (if c as int > 0xFFFF then 2 else 1)
  {
    Utf16LengthAppend(s, [c]);
    assert [c][1..] == [];
  }

  function LowerAscii(c: char): char {
    if 'A' <= c <= 'Z' then (c as int + 32) as char else c
  }

  /**
   * `s.toLowerCase()` on ASCII letters. The result is only compared with the
   * lower-case prefixes `http://` and `https://`, and no other code point
   * lowercases to a character of those prefixes, so this is exact for that use.
   */
  function Lower(s: string): (r: string)
    ensures |r| == |s|
    ensures forall k :: 0 <= k < |r| ==> !('A' <= r[k] <= 'Z')
    ensures forall k :: 0 <= k < |s| ==> LowerAscii(r[k]) == LowerAscii(s[k])
  {
    seq(|s|, k requires 0 <= k < |s| => LowerAscii(s[k]))
  }

  /** Lowering changes nothing when there is no upper-case ASCII letter. */
  lemma LowerNoUpper(s: string)
    requires forall k :: 0 <= k < |s| ==> !('A' <= s[k] <= 'Z')
    ensures Lower(s) == s
  {
  }

  /** `u.startsWith("http://") || u.startsWith("https://")` */
  predicate HasWebScheme(u: string) {
    "http://" <= u || "https://" <= u
  }

  /** The title message: required, then at least three code units, else none. */
  function TitleError(title: string): (m: FieldError)
    ensures m == TitleRequired <==> forall k :: 0 <= k < |title| ==> IsTrimmable(title[k])
    ensures m == TitleTooShort <==> Trim(title) != [] && Utf16Length(Trim(title)) < 3
    ensures m == NoError <==> Utf16Length(Trim(title)) >= 3
  {
    var t := Trim(title);
    if t == [] then TitleRequired
    else if Utf16Length(t) < 3 then TitleTooShort
    else NoError
  }

  /** The URL message: required, then the scheme, then parsing, else none. */
  function UrlError(url: string, parses: string -> bool): (m: FieldError)
    ensures m == UrlRequired <==> forall k :: 0 <= k < |url| ==> IsTrimmable(url[k])
    ensures m == UrlBadScheme <==> Trim(url) != [] && !HasWebScheme(Lower(Trim(url)))
    ensures m == UrlInvalid <==> HasWebScheme(Lower(Trim(url))) && !parses(Trim(url))
    ensures m == NoError <==> HasWebScheme(Lower(Trim(url))) && parses(Trim(url))
  {
    var t := Trim(url);
    if t == [] then UrlRequired
    else if !HasWebScheme(Lower(t)) then UrlBadScheme
    else if !parses(t) then UrlInvalid
    else NoError
  }

  /**
   * The body of `validateForm` up to `setErrors`: fills in `newErrors` field
   * by field and clears `isValid` on every failing branch.
   */
  method ValidateFields(title: string, url: string, parses: string -> bool)
    returns (newErrors: FieldErrors, isValid: bool)
    ensures newErrors == FieldErrors(TitleError(title), UrlError(url, parses))
    ensures isValid <==> newErrors.title == NoError && newErrors.url == NoError
  {
    newErrors := FieldErrors(NoError, NoError);
    isValid := true;

    var trimmedTitle := Trim(title);
    if trimmedTitle == [] {
      newErrors := newErrors.(title := TitleRequired);
      isValid := false;
    } else if Utf16Length(trimmedTitle) < 3 {
      newErrors := newErrors.(title := TitleTooShort);
      isValid := false;
    }
    assert newErrors.title == TitleError(title);
    assert isValid <==> newErrors.title == NoError;

    var trimmedUrl := Trim(url);
    if trimmedUrl == [] {
      newErrors := newErrors.(url := UrlRequired);
      isValid := false;
    } else {
      var urlToCheck := Lower(trimmedUrl);
      if !("http://" <= urlToCheck) && !("https://" <= urlToCheck) {
        newErrors := newErrors.(url := UrlBadScheme);
        isValid := false;
      } else if !parses(trimmedUrl) {
        newErrors := newErrors.(url := UrlInvalid);
        isValid := false;
      }
    }
    assert newErrors.url == UrlError(url, parses);
  }

  /** The form passes exactly when the title has three code units and the URL has a web scheme and parses. */
  lemma ValidIff(title: string, url: string, parses: string -> bool)
    ensures TitleError(title) == NoError && UrlError(url, parses) == NoError
        <==> Utf16Length(Trim(title)) >= 3 && HasWebScheme(Lower(Trim(url))) && parses(Trim(url))
  {
  }

  /** The scheme test ignores ASCII case: strings equal up to ASCII case agree on it. */
  lemma {:induction false} SchemeIgnoresCase(s: string, u: string)
    requires |s| == |u| && forall k :: 0 <= k < |s| ==> LowerAscii(s[k]) == LowerAscii(u[k])
    ensures Lower(s) == Lower(u)
    ensures HasWebScheme(Lower(s)) <==> HasWebScheme(Lower(u))
  {
  }

  /** A URL with no white space at either end is judged by its lowered scheme, then by the parser. */
  lemma UrlErrorUntrimmed(u: string, parses: string -> bool)
    requires u != [] && !IsTrimmable(u[0]) && !IsTrimmable(u[|u| - 1])
    ensures UrlError(u, parses) ==
      if !HasWebScheme(Lower(u)) then UrlBadScheme else if !parses(u) then UrlInvalid else NoError
  {
    TrimNoEnds(u);
  }

  lemma UpperCaseSchemeExample(parses: string -> bool)
    ensures UrlError("HTTPS://X.COM", parses) == (if parses("HTTPS://X.COM") then NoError else UrlInvalid)
  {
    assert HasWebScheme(Lower("HTTPS://X.COM")) by {
      LowerNoUpper("https://x.com");
      SchemeIgnoresCase("HTTPS://X.COM", "https://x.com");
    }
    UrlErrorUntrimmed("HTTPS://X.COM", parses);
  }

  /** A title with no white space at either end is judged by its UTF-16 length alone. */
  lemma TitleErrorUntrimmed(t: string)
    requires t != [] && !IsTrimmable(t[0]) && !IsTrimmable(t[|t| - 1])
    ensures TitleError(t) == if Utf16Length(t) < 3 then TitleTooShort else NoError
  {
    TrimNoEnds(t);
  }

  lemma ShortTitleExample()
    ensures TitleError("ab") == TitleTooShort
  {
    TitleErrorUntrimmed("ab");
    assert Utf16Length("ab") == 2;
  }

  lemma BadSchemeExample(parses: string -> bool)
    ensures UrlError("ftp://x.com", parses) == UrlBadScheme
  {
    assert !HasWebScheme(Lower("ftp://x.com")) by {
      LowerNoUpper("ftp://x.com");
      assert "ftp://x.com"[0] == 'f';
    }
    UrlErrorUntrimmed("ftp://x.com", parses);
  }

  /**
   * Titles are measured in UTF-16 code units: one astral code point counts
   * twice, so it is still too short alone and enough with one more letter.
   */
  lemma AstralTitleExample()
    ensures TitleError("\U{1F600}") == TitleTooShort
    ensures TitleError("\U{1F600}a") == NoError
  {
    TitleErrorUntrimmed("\U{1F600}");
    TitleErrorUntrimmed("\U{1F600}a");
    assert Utf16Length("\U{1F600}") == 2;
    assert Utf16Length("\U{1F600}a") == 3;
  }

  lemma ValidTitleExample()
    ensures TitleError("My Link") == NoError
  {
    TitleErrorUntrimmed("My Link");
    assert Utf16Length("My Link") == 7;
  }

  lemma ValidUrlExample(parses: string -> bool)
    requires parses("https://x.com")
    ensures UrlError("https://x.com", parses) == NoError
  {
    assert HasWebScheme(Lower("https://x.com")) by {
      LowerNoUpper("https://x.com");
    }
    UrlErrorUntrimmed("https://x.com", parses);
  }
}
