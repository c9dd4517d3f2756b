/** The request bodies of the register and login endpoints and the data
    annotations on them, as validity predicates. A field the client left out
    (or sent as JSON null) is `None`. */
module Validation {
  import opened Wrappers

  datatype UserRegister = UserRegister(email: Option<string>, name: Option<string>, password: Option<string>)

  datatype UserLogin = UserLogin(email: Option<string>, password: Option<string>)

  /** `char.IsWhiteSpace`: the Unicode space, line and paragraph separators
      plus the control characters U+0009–U+000D and U+0085. */
  predicate IsWhiteSpace(c: char) {
    || ('\U{9}' <= c <= '\U{D}')
    || c == ' ' || c == '\U{85}' || c == '\U{A0}' || c == '\U{1680}'
    || ('\U{2000}' <= c <= '\U{200A}')
    || c == '\U{2028}' || c == '\U{2029}' || c == '\U{202F}' || c == '\U{205F}' || c == '\U{3000}'
  }

  /** `string.IsNullOrWhiteSpace` for a non-null string. */
  predicate AllWhiteSpace(s: string) {
    forall i :: 0 <= i < |s| ==> IsWhiteSpace(s[i])
  }

  /** `[Required]` on a string: not null, and not empty or white space only. */
  function Required(v: Option<string>): (ok: bool)
    ensures ok ==> v.Some? && |v.value| > 0
    ensures ok <==> v.Some? && !AllWhiteSpace(v.value)
  {
    v.Some? && exists i :: 0 <= i < |v.value| && !IsWhiteSpace(v.value[i])
  }

  /** `string.Length`: the number of UTF-16 code units, so a character outside
      the Basic Multilingual Plane counts twice. */
  function Utf16Length(s: string): (n: nat)
    ensures |s| <= n <= 2 * |s|
  {
    if |s| == 0 then 0
    else (if s[0] as int > 0xFFFF then 2 else 1) + Utf16Length(s[1..])
  }

  /** `[StringLength(max, MinimumLength = min)]`: a null value passes (that is
      `[Required]`'s business); otherwise the length must lie in [min, max],
      both ends included. */
  function StringLength(v: Option<string>, min: nat, max: nat): (ok: bool)
    ensures v.None? ==> ok
    ensures ok && v.Some? ==> |v.value| <= max && min <= Utf16Length(v.value) <= max
    ensures v.Some? && min <= Utf16Length(v.value) <= max ==> ok
  {
    v.None? || (min <= Utf16Length(v.value) <= max)
  }

  const MaxNameLength: nat := 100
  const MinPasswordLength: nat := 6
  const MaxPasswordLength: nat := 100

  /** All annotations of `UserRegister` hold. The e-mail's availability is not
      among them: that is checked against the store by the register action. */
  function ValidRegister(b: UserRegister): (ok: bool)
    ensures ok ==> b.email.Some? && b.name.Some? && b.password.Some?
    ensures ok ==> 0 < |b.name.value| <= MaxNameLength
    ensures ok ==> 3 <= |b.password.value| <= MaxPasswordLength
  {
    && Required(b.email)
    && Required(b.name) && StringLength(b.name, 0, MaxNameLength)
    && Required(b.password) && StringLength(b.password, MinPasswordLength, MaxPasswordLength)
  }

  /** All annotations of `UserLogin` hold. */
  function ValidLogin(b: UserLogin): (ok: bool)
    ensures ok ==> b.email.Some? && b.password.Some?
    ensures ok ==> 3 <= |b.password.value| <= MaxPasswordLength
  {
    && Required(b.email)
    && Required(b.password) && StringLength(b.password, MinPasswordLength, MaxPasswordLength)
  }

  /** For text in the Basic Multilingual Plane the UTF-16 length is the
      number of characters. */
  lemma {:induction false} Utf16LengthOfBmp(s: string)
    requires forall i :: 0 <= i < |s| ==> s[i] as int <= 0xFFFF
    ensures Utf16Length(s) == |s|
  {
    if |s| > 0 {
      Utf16LengthOfBmp(s[1..]);
    }
  }

  /** One character counts one code unit, or two (a surrogate pair) when it
      lies outside the Basic Multilingual Plane. */
  lemma Utf16LengthOfChar(c: char)
    ensures Utf16Length([c]) == if c as int > 0xFFFF then 2 else 1
  {
    assert [c][1..] == [];
  }

  /** The UTF-16 length of a concatenation is the sum of the lengths; with
      `Utf16LengthOfChar` this fixes the length of every string. */
  lemma {:induction false} Utf16LengthAppend(a: string, b: string)
    ensures Utf16Length(a + b) == Utf16Length(a) + Utf16Length(b)
  {
    if |a| > 0 {
      assert (a + b)[1..] == a[1..] + b;
      Utf16LengthAppend(a[1..], b);
    } else {
      assert a + b == b;
    }
  }

  /** Three characters from outside the Basic Multilingual Plane make a
      password of length 6, which the bounds admit. */
  lemma {:induction false} AstralPasswordLength()
    ensures Utf16Length("\U{1F600}\U{1F600}\U{1F600}") == 6
    ensures StringLength(Some("\U{1F600}\U{1F600}\U{1F600}"), MinPasswordLength, MaxPasswordLength)
  {
    var c := '\U{1F600}';
    Utf16LengthOfChar(c);
    Utf16LengthAppend([c], [c]);
    Utf16LengthAppend([c, c], [c]);
    assert [c] + [c] == [c, c] && [c, c] + [c] == "\U{1F600}\U{1F600}\U{1F600}";
  }

  /** The register body is valid exactly when each field is present and the
      name and password lengths are in range. Each failing field alone makes
      the body invalid. */
  lemma RegisterValidity(b: UserRegister)
    ensures !Required(b.email) ==> !ValidRegister(b)
    ensures !Required(b.name) ==> !ValidRegister(b)
    ensures b.name.Some? && Utf16Length(b.name.value) > 100 ==> !ValidRegister(b)
    ensures !Required(b.password) ==> !ValidRegister(b)
    ensures b.password.Some? && !(6 <= Utf16Length(b.password.value) <= 100) ==> !ValidRegister(b)
    ensures ValidRegister(b) <==>
      (&& Required(b.email) && Required(b.name) && Required(b.password)
       && Utf16Length(b.name.value) <= 100
       && 6 <= Utf16Length(b.password.value) <= 100)
  {
  }

  /** The login body is valid exactly when both fields are present and the
      password length is in [6, 100]. */
  lemma LoginValidity(b: UserLogin)
    ensures !Required(b.email) ==> !ValidLogin(b)
    ensures !Required(b.password) ==> !ValidLogin(b)
    ensures b.password.Some? && Utf16Length(b.password.value) < 6 ==> !ValidLogin(b)
    ensures b.password.Some? && Utf16Length(b.password.value) > 100 ==> !ValidLogin(b)
    ensures ValidLogin(b) <==>
      (Required(b.email) && Required(b.password) && 6 <= Utf16Length(b.password.value) <= 100)
  {
  }

  /** The login body built from a valid register body is valid: both bodies
      put the same constraints on e-mail and password. */
  lemma RegisterBodyGivesLoginBody(b: UserRegister)
    requires ValidRegister(b)
    ensures ValidLogin(UserLogin(b.email, b.password))
  {
  }

  /** `[StringLength(100)]` on the name admits exactly 100 characters and
      rejects 101, although its message says "less than 100". */
  lemma {:induction false} NameLimitIsInclusive()
    ensures ValidRegister(UserRegister(Some("a@x.com"), Some(seq(100, _ => 'n')), Some("secret1")))
    ensures !ValidRegister(UserRegister(Some("a@x.com"), Some(seq(101, _ => 'n')), Some("secret1")))
  {
    var n100: string := seq(100, _ => 'n');
    var n101: string := seq(101, _ => 'n');
    Utf16LengthOfBmp(n100);
    Utf16LengthOfBmp(n101);
    Utf16LengthOfBmp("secret1");
    assert !IsWhiteSpace("a@x.com"[0]);
    assert !IsWhiteSpace(n100[0]);
    assert !IsWhiteSpace("secret1"[0]);
  }
}
