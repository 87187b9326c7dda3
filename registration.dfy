/**
 * The business-owner registration page: the ordered validation chain run on
 * submit, the data it hands to the registration call, and the normalisation
 * applied to the slug field as the owner types.
 *
 * Character classes are ASCII: upper-case letters are 'A'..'Z', and white
 * space is the space character and the five control characters TAB, LF, VT,
 * FF and CR.
 */
module Registration {
  import opened Common

  /** The fields of the registration form. */
  datatype RegisterForm = RegisterForm(
    name: string,
    email: string,
    password: string,
    passwordConfirm: string,
    companyName: string,
    slug: string,
    nicho: string)

  /** What the form hands to the registration call (no confirmation field). */
  datatype RegisterData = RegisterData(
    name: string,
    email: string,
    password: string,
    companyName: string,
    slug: string,
    nicho: string)

  const MinPasswordLength: nat := 6
  const PasswordTooShort: string := "Senha deve ter no mínimo 6 caracteres"
  const PasswordsDiffer: string := "Senhas não conferem"
  const SlugInvalid: string := "Slug deve conter apenas letras minúsculas, números e hífen"

  /** A character of the class `[a-z0-9-]`. */
  predicate IsSlugChar(c: char)
  {
    'a' <= c <= 'z' || '0' <= c <= '9' || c == '-'
  }

  /** `s` is all slug characters (the `[a-z0-9-]*` part of the pattern). */
  function AllSlugChars(s: string): (b: bool)
    ensures b <==> forall i :: 0 <= i < |s| ==> IsSlugChar(s[i])
  {
    if s == [] then true
    else IsSlugChar(s[0]) && AllSlugChars(s[1..])
  }

  /** The slug pattern `^[a-z0-9-]+$`: one or more slug characters and nothing else. */
  predicate MatchesSlugPattern(s: string)
    ensures MatchesSlugPattern(s) <==> |s| >= 1 && forall i :: 0 <= i < |s| ==> IsSlugChar(s[i])
  {
    s != [] && AllSlugChars(s)
  }

  /** The outcome of one submit: the page's local error and the registration call made, if any. */
  datatype Submission = Submission(localError: string, registered: Option<RegisterData>)

  /** The form data without the confirmation, copied field by field. */
  function ToRegisterData(f: RegisterForm): (d: RegisterData)
    ensures d.name == f.name && d.email == f.email && d.password == f.password
    ensures d.companyName == f.companyName && d.slug == f.slug && d.nicho == f.nicho
  {
    RegisterData(f.name, f.email, f.password, f.companyName, f.slug, f.nicho)
  }

  /**
   * The length JavaScript reports for a string: its UTF-16 code units, two
   * for a character above U+FFFF (a surrogate pair) and one for any other.
   */
  function Utf16Length(s: string): (n: nat)
    ensures |s| <= n <= 2 * |s|
    ensures (forall i :: 0 <= i < |s| ==> s[i] as int < 0x1_0000) ==> n == |s|
  {
    if s == [] then 0
    else (if s[0] as int >= 0x1_0000 then 2 else 1) + Utf16Length(s[1..])
  }

  /** The number of characters (code points) of a string. */
  function CharCount(s: string): nat
  {
    |s|
  }

  /**
   * The checks of the submit handler, with the password measured by
   * `passwordLength`. The local error is cleared first, then the checks run
   * in order and the first failing one sets the error and stops; only when
   * all pass is the registration call made. A failure of the call itself is
   * reported by the authentication context, not by this local error.
   */
  function CheckSubmit(f: RegisterForm, passwordLength: string -> nat): (r: Submission)
    ensures r.registered.Some? <==>
      passwordLength(f.password) >= MinPasswordLength && f.password == f.passwordConfirm && MatchesSlugPattern(f.slug)
    ensures r.registered.Some? ==> r.localError == "" && r.registered.value == ToRegisterData(f)
    ensures passwordLength(f.password) < MinPasswordLength ==> r.localError == PasswordTooShort
    ensures passwordLength(f.password) >= MinPasswordLength && f.password != f.passwordConfirm ==>
      r.localError == PasswordsDiffer
    ensures (passwordLength(f.password) >= MinPasswordLength && f.password == f.passwordConfirm &&
             !MatchesSlugPattern(f.slug)) ==> r.localError == SlugInvalid
    ensures r.localError == "" <==> r.registered.Some?
  {
    if passwordLength(f.password) < MinPasswordLength then Submission(PasswordTooShort, None)
    else if f.password != f.passwordConfirm then Submission(PasswordsDiffer, None)
    else if !MatchesSlugPattern(f.slug) then Submission(SlugInvalid, None)
    else Submission("", Some(ToRegisterData(f)))
  }

  /** The submit handler as written: `password.length` counts UTF-16 code units. */
  function HandleSubmit(f: RegisterForm): (r: Submission)
    ensures r.registered.Some? <==>
      Utf16Length(f.password) >= MinPasswordLength && f.password == f.passwordConfirm && MatchesSlugPattern(f.slug)
    ensures r.registered.Some? ==> r.registered.value == ToRegisterData(f)
    ensures Utf16Length(f.password) < MinPasswordLength ==> r.localError == PasswordTooShort
    ensures r.localError == "" <==> r.registered.Some?
  {
    CheckSubmit(f, Utf16Length)
  }

  /** The submit handler with the password measured in characters, as the server measures it. */
  function CorrectedHandleSubmit(f: RegisterForm): (r: Submission)
    ensures r.registered.Some? <==>
      |f.password| >= MinPasswordLength && f.password == f.passwordConfirm && MatchesSlugPattern(f.slug)
    ensures r.registered.Some? ==> r.registered.value == ToRegisterData(f)
    ensures |f.password| < MinPasswordLength ==> r.localError == PasswordTooShort
    ensures r.localError == "" <==> r.registered.Some?
  {
    CheckSubmit(f, CharCount)
  }

  /** Without characters above U+FFFF, the corrected handler decides as the written one. */
  lemma CorrectedAgreesOnBmp(f: RegisterForm)
    requires forall i :: 0 <= i < |f.password| ==> f.password[i] as int < 0x1_0000
    ensures CorrectedHandleSubmit(f) == HandleSubmit(f)
  {
  }

  /** Two forms that differ only in fields no check reads get the same verdict. */
  lemma SubmitVerdictIgnoresOtherFields(f: RegisterForm, g: RegisterForm)
    requires f.password == g.password && f.passwordConfirm == g.passwordConfirm && f.slug == g.slug
    ensures HandleSubmit(f).localError == HandleSubmit(g).localError
    ensures HandleSubmit(f).registered.Some? == HandleSubmit(g).registered.Some?
  {
  }

  // ---------------------------------------------------------------------------
  // Slug normalisation: `value.toLowerCase().replace(/\s+/g, '-')`

  predicate IsUpper(c: char)
  {
    'A' <= c <= 'Z'
  }

  predicate IsSpace(c: char)
  {
    c == ' ' || '\t' <= c <= '\r'
  }

  function LowerChar(c: char): (l: char)
    ensures !IsUpper(l)
    ensures IsSpace(l) <==> IsSpace(c)
    ensures !IsUpper(c) ==> l == c
    ensures IsUpper(c) ==> l as int == c as int + 32
  {
    if IsUpper(c) then (c as int + 32) as char else c
  }

  /** ASCII `toLowerCase`. */
  function ToLower(s: string): (r: string)
    ensures |r| == |s|
    ensures forall i :: 0 <= i < |r| ==> !IsUpper(r[i]) && (IsSpace(r[i]) <==> IsSpace(s[i]))
    ensures (forall i :: 0 <= i < |s| ==> !IsUpper(s[i])) ==> r == s
    ensures forall i :: 0 <= i < |s| ==> r[i] == LowerChar(s[i])
  {
    seq(|s|, i requires 0 <= i < |s| => LowerChar(s[i]))
  }

  /** `s` without its leading white space. */
  function DropSpaces(s: string): (r: string)
    ensures |r| <= |s| && r == s[|s| - |r|..]
    ensures r == [] || !IsSpace(r[0])
    ensures forall i :: 0 <= i < |s| - |r| ==> IsSpace(s[i])
  {
    if s != [] && IsSpace(s[0]) then DropSpaces(s[1..]) else s
  }

  /** `replace(/\s+/g, '-')`: every maximal run of white space becomes one '-'. */
  function Collapse(s: string): (r: string)
    decreases |s|
    ensures forall i :: 0 <= i < |r| ==> !IsSpace(r[i])
    ensures forall i :: 0 <= i < |r| ==> r[i] == '-' || r[i] in s
    ensures |r| <= |s| && (r == [] <==> s == [])
  {
    if s == [] then []
    else if IsSpace(s[0]) then ['-'] + Collapse(DropSpaces(s[1..]))
    else [s[0]] + Collapse(s[1..])
  }

  /** The slug field's `onChange` normalisation. */
  function NormalizeSlug(s: string): (r: string)
    ensures forall i :: 0 <= i < |r| ==> !IsUpper(r[i]) && !IsSpace(r[i])
  {
    var lower := ToLower(s);
    var r := Collapse(lower);
    assert forall i :: 0 <= i < |r| ==> !IsUpper(r[i]) by {
      forall i | 0 <= i < |r| ensures !IsUpper(r[i]) {
        if r[i] != '-' {
          var j :| 0 <= j < |lower| && lower[j] == r[i];
        }
      }
    }
    r
  }

  lemma {:induction false} DropSpacesAppend(x: string, y: string, k: nat)
    requires k < |x| && !IsSpace(x[k])
    ensures DropSpaces(x + y) == DropSpaces(x) + y
  {
    if IsSpace(x[0]) {
      assert (x + y)[0] == x[0] && (x + y)[1..] == x[1..] + y;
      DropSpacesAppend(x[1..], y, k - 1);
    } else {
      assert (x + y)[0] == x[0];
    }
  }

  lemma {:induction false} DropSpacesRun(w: string, b: string)
    requires forall i :: 0 <= i < |w| ==> IsSpace(w[i])
    requires b == [] || !IsSpace(b[0])
    ensures DropSpaces(w + b) == b
  {
    if w == [] {
      assert w + b == b;
    } else {
      assert (w + b)[0] == w[0] && (w + b)[1..] == w[1..] + b;
      DropSpacesRun(w[1..], b);
    }
  }

  /** Runs never cross a non-space character: collapsing splits at one. */
  lemma {:induction false} CollapseAppend(a: string, b: string)
    requires a == [] || !IsSpace(a[|a| - 1])
    ensures Collapse(a + b) == Collapse(a) + Collapse(b)
    decreases |a|
  {
    if a == [] {
      assert a + b == b;
    } else if IsSpace(a[0]) {
      DropSpacesAppendLast(a, b);
      CollapseAppend(DropSpaces(a[1..]), b);
      CollapseAppendSpaceStep(a, b);
    } else {
      CollapseAppend(a[1..], b);
      CollapseAppendOtherStep(a, b);
    }
  }

  /** One step of CollapseAppend when `a` starts with white space. */
  lemma CollapseAppendSpaceStep(a: string, b: string)
    requires |a| > 0 && IsSpace(a[0]) && !IsSpace(a[|a| - 1])
    requires DropSpaces(a[1..] + b) == DropSpaces(a[1..]) + b
    requires Collapse(DropSpaces(a[1..]) + b) == Collapse(DropSpaces(a[1..])) + Collapse(b)
    ensures Collapse(a + b) == Collapse(a) + Collapse(b)
  {
    var d := DropSpaces(a[1..]);
    TailOfAppend(a, b);
    CollapseSpaceHead(a + b, a[1..] + b);
    CollapseSpaceHead(a, a[1..]);
    ConcatAssoc(['-'], Collapse(d), Collapse(b));
  }

  lemma ConcatAssoc(x: string, y: string, z: string)
    ensures x + (y + z) == (x + y) + z
  {
  }

  /** One step of CollapseAppend when `a` starts with another character. */
  lemma CollapseAppendOtherStep(a: string, b: string)
    requires |a| > 0 && !IsSpace(a[0])
    requires Collapse(a[1..] + b) == Collapse(a[1..]) + Collapse(b)
    ensures Collapse(a + b) == Collapse(a) + Collapse(b)
  {
    TailOfAppend(a, b);
    CollapseOtherHead(a + b);
    CollapseOtherHead(a);
  }

  lemma TailOfAppend(a: string, b: string)
    requires a != []
    ensures (a + b)[0] == a[0] && (a + b)[1..] == a[1..] + b
  {
  }

  lemma CollapseSpaceHead(s: string, t: string)
    requires s != [] && IsSpace(s[0]) && t == s[1..]
    ensures Collapse(s) == ['-'] + Collapse(DropSpaces(t))
  {
  }

  lemma CollapseOtherHead(s: string)
    requires s != [] && !IsSpace(s[0])
    ensures Collapse(s) == [s[0]] + Collapse(s[1..])
  {
  }

  /** Helper for CollapseAppend: skipping the leading run of `a + b` stays inside `a`. */
  lemma DropSpacesAppendLast(a: string, b: string)
    requires |a| > 0 && IsSpace(a[0]) && !IsSpace(a[|a| - 1])
    ensures DropSpaces(a[1..] + b) == DropSpaces(a[1..]) + b
    ensures 0 < |DropSpaces(a[1..])| < |a|
    ensures !IsSpace(DropSpaces(a[1..])[|DropSpaces(a[1..])| - 1])
  {
    var t := a[1..];
    assert |t| > 0 && t[|t| - 1] == a[|a| - 1];
    DropSpacesAppend(t, b, |t| - 1);
    DropSpacesKeepsLast(t);
  }

  lemma DropSpacesKeepsLast(t: string)
    requires |t| > 0 && !IsSpace(t[|t| - 1])
    ensures |DropSpaces(t)| > 0 && DropSpaces(t)[|DropSpaces(t)| - 1] == t[|t| - 1]
  {
    var d := DropSpaces(t);
    var k := |t| - |d|;
    assert d == t[k..];
    if d == [] {
      assert false;
    }
  }

  /** A maximal run of white space turns into exactly one '-'. */
  lemma CollapseRun(w: string, b: string)
    requires w != [] && forall i :: 0 <= i < |w| ==> IsSpace(w[i])
    requires b == [] || !IsSpace(b[0])
    ensures Collapse(w + b) == ['-'] + Collapse(b)
  {
    TailOfAppend(w, b);
    CollapseSpaceHead(w + b, w[1..] + b);
    DropSpacesRun(w[1..], b);
  }

  /** Text without white space is left unchanged. */
  lemma {:induction false} CollapseNoSpace(s: string)
    requires forall i :: 0 <= i < |s| ==> !IsSpace(s[i])
    ensures Collapse(s) == s
  {
    if s != [] {
      CollapseNoSpace(s[1..]);
    }
  }

  /** Normalising an already normalised slug changes nothing. */
  lemma NormalizeSlugIdempotent(s: string)
    ensures NormalizeSlug(NormalizeSlug(s)) == NormalizeSlug(s)
  {
    var n := NormalizeSlug(s);
    assert ToLower(n) == n;
    CollapseNoSpace(n);
  }

  /**
   * Typing only letters, digits, '-' and white space gives a slug the submit
   * check accepts, provided something was typed.
   */
  lemma NormalizedSlugMatches(s: string)
    requires s != []
    requires forall i :: 0 <= i < |s| ==> IsSlugChar(s[i]) || IsUpper(s[i]) || IsSpace(s[i])
    ensures MatchesSlugPattern(NormalizeSlug(s))
  {
    var lower := ToLower(s);
    forall i | 0 <= i < |lower| && !IsSpace(lower[i]) ensures IsSlugChar(lower[i]) {
      assert lower[i] == LowerChar(s[i]);
    }
    var r := Collapse(lower);
    forall i | 0 <= i < |r| ensures IsSlugChar(r[i]) {
      if r[i] != '-' {
        var j :| 0 <= j < |lower| && lower[j] == r[i];
      }
    }
  }
}
