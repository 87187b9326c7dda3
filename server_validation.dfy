/**
 * The declarative constraints the server puts on two request bodies: the
 * owner sign-up body and the public feedback body. A field value is
 * `Some(s)` when the body carries a string there and `None` when the field is
 * absent or holds a non-string value. The e-mail format check is the
 * validator library's and is taken as a parameter `isEmail`.
 */
module ServerValidation {
  import opened Common
  import Registration

  /** `IsString` + `IsNotEmpty`: a string other than "". */
  predicate NonEmptyString(v: Option<string>)
  {
    v.Some? && v.value != ""
  }

  /** `IsString` + `MinLength(n)`. */
  predicate StringOfMinLength(v: Option<string>, n: nat)
  {
    v.Some? && |v.value| >= n
  }

  /** `IsString` + `Length(lo, hi)`: both bounds inclusive. */
  predicate StringOfLength(v: Option<string>, lo: nat, hi: nat)
  {
    v.Some? && lo <= |v.value| <= hi
  }

  /** `IsEmail` + `IsNotEmpty`. */
  predicate EmailField(v: Option<string>, isEmail: string -> bool)
  {
    v.Some? && v.value != "" && isEmail(v.value)
  }

  /** The sign-up body. */
  datatype CreateUserDto = CreateUserDto(
    name: Option<string>,
    email: Option<string>,
    password: Option<string>,
    companyName: Option<string>,
    slug: Option<string>,
    nicho: Option<string>)

  const MinPasswordLength: nat := 6

  /** All constraints of the sign-up body hold. */
  predicate ValidCreateUser(d: CreateUserDto, isEmail: string -> bool)
    ensures ValidCreateUser(d, isEmail) ==>
      && d.name.Some? && d.email.Some? && d.password.Some?
      && d.companyName.Some? && d.slug.Some? && d.nicho.Some?
      && isEmail(d.email.value) && |d.password.value| >= 6 && d.slug.value != ""
    ensures d.password.Some? && |d.password.value| < 6 ==> !ValidCreateUser(d, isEmail)
  {
    && NonEmptyString(d.name)
    && EmailField(d.email, isEmail)
    && StringOfMinLength(d.password, MinPasswordLength)
    && NonEmptyString(d.companyName)
    && NonEmptyString(d.slug)
    && NonEmptyString(d.nicho)
  }

  /** The feedback body. */
  datatype CreateFeedbackDto = CreateFeedbackDto(
    customerName: Option<string>,
    email: Option<string>,
    content: Option<string>)

  const MinContentLength: nat := 10
  const MaxContentLength: nat := 500

  /** All constraints of the feedback body hold. */
  predicate ValidCreateFeedback(d: CreateFeedbackDto, isEmail: string -> bool)
    ensures ValidCreateFeedback(d, isEmail) ==>
      && d.customerName.Some? && d.customerName.value != ""
      && d.email.Some? && isEmail(d.email.value)
      && d.content.Some? && 10 <= |d.content.value| <= 500
    ensures d.content.Some? && (|d.content.value| < 10 || |d.content.value| > 500) ==> !ValidCreateFeedback(d, isEmail)
  {
    && NonEmptyString(d.customerName)
    && EmailField(d.email, isEmail)
    && NonEmptyString(d.content)
    && StringOfLength(d.content, MinContentLength, MaxContentLength)
  }

  /** The names of the sign-up fields whose constraints fail, in declaration order. */
  function CreateUserViolations(d: CreateUserDto, isEmail: string -> bool): (r: seq<string>)
    ensures r == [] <==> ValidCreateUser(d, isEmail)
    ensures "password" in r <==> !StringOfMinLength(d.password, MinPasswordLength)
    ensures "slug" in r <==> !NonEmptyString(d.slug)
    ensures |r| <= 6
  {
    (if NonEmptyString(d.name) then [] else ["name"])
    + (if EmailField(d.email, isEmail) then [] else ["email"])
    + (if StringOfMinLength(d.password, MinPasswordLength) then [] else ["password"])
    + (if NonEmptyString(d.companyName) then [] else ["companyName"])
    + (if NonEmptyString(d.slug) then [] else ["slug"])
    + (if NonEmptyString(d.nicho) then [] else ["nicho"])
  }

  /** The names of the feedback fields whose constraints fail, in declaration order. */
  function CreateFeedbackViolations(d: CreateFeedbackDto, isEmail: string -> bool): (r: seq<string>)
    ensures r == [] <==> ValidCreateFeedback(d, isEmail)
    ensures "content" in r <==> !StringOfLength(d.content, MinContentLength, MaxContentLength)
    ensures |r| <= 3
  {
    LengthImpliesNonEmpty(d.content);
    (if NonEmptyString(d.customerName) then [] else ["customerName"])
    + (if EmailField(d.email, isEmail) then [] else ["email"])
    + (if NonEmptyString(d.content) && StringOfLength(d.content, MinContentLength, MaxContentLength)
       then [] else ["content"])
  }

  /** The length rule on feedback content subsumes its non-empty rule. */
  lemma LengthImpliesNonEmpty(v: Option<string>)
    ensures StringOfLength(v, MinContentLength, MaxContentLength) ==> NonEmptyString(v)
    ensures (StringOfLength(v, MinContentLength, MaxContentLength) && NonEmptyString(v))
        <==> StringOfLength(v, MinContentLength, MaxContentLength)
  {
  }

  /** Content of exactly 10 and exactly 500 characters is accepted; 9 and 501 are not. */
  lemma ContentBoundsInclusive(c: string)
    ensures |c| == 10 || |c| == 500 ==> StringOfLength(Some(c), MinContentLength, MaxContentLength)
    ensures |c| == 9 || |c| == 501 ==> !StringOfLength(Some(c), MinContentLength, MaxContentLength)
  {
  }

  /**
   * A password without characters above U+FFFF that the registration page
   * lets through meets the server's minimum length.
   */
  lemma FrontendPasswordMeetsServer(p: string)
    requires forall i :: 0 <= i < |p| ==> p[i] as int < 0x1_0000
    requires Registration.Utf16Length(p) >= Registration.MinPasswordLength
    ensures StringOfMinLength(Some(p), MinPasswordLength)
  {
  }

  /** Every password the server accepts also passes the page's check. */
  lemma ServerPasswordPassesPage(p: string)
    ensures StringOfMinLength(Some(p), MinPasswordLength) ==>
      Registration.Utf16Length(p) >= Registration.MinPasswordLength
  {
  }

  /** Three characters above U+FFFF: six UTF-16 code units. */
  const AstralPassword: string := "\U{1F600}\U{1F600}\U{1F600}"

  lemma AstralPasswordLengths()
    ensures |AstralPassword| == 3 && Registration.Utf16Length(AstralPassword) == 6
  {
    var p := AstralPassword;
    assert p[1..][1..][1..] == [];
    assert Registration.Utf16Length(p[1..][1..]) == 2;
    assert Registration.Utf16Length(p[1..]) == 4;
  }

  /** A sign-up form whose password is `AstralPassword`, otherwise filled in. */
  const AstralForm: Registration.RegisterForm :=
    Registration.RegisterForm("Ana", "ana@example.com", AstralPassword, AstralPassword, "Acme", "acme", "cafe")

  /**
   * As written, the page makes the registration call for a password of three
   * characters above U+FFFF, and the server rejects the body for its password.
   */
  lemma AstralPasswordRejected(isEmail: string -> bool)
    ensures Registration.HandleSubmit(AstralForm).registered.Some?
    ensures !StringOfMinLength(ToDto(Registration.HandleSubmit(AstralForm).registered.value).password, MinPasswordLength)
    ensures !ValidCreateUser(ToDto(Registration.HandleSubmit(AstralForm).registered.value), isEmail)
  {
    AstralPasswordLengths();
    assert Registration.MatchesSlugPattern("acme") by {
      assert Registration.IsSlugChar("acme"[0]) && Registration.IsSlugChar("acme"[1]);
      assert Registration.IsSlugChar("acme"[2]) && Registration.IsSlugChar("acme"[3]);
    }
  }

  /** With the correction the page declines that form. */
  lemma AstralPasswordDeclinedWhenCorrected()
    ensures Registration.CorrectedHandleSubmit(AstralForm).registered.None?
    ensures Registration.CorrectedHandleSubmit(AstralForm).localError == Registration.PasswordTooShort
  {
    AstralPasswordLengths();
  }

  /** A slug the page's pattern accepts is non-empty, so the server accepts it too. */
  lemma FrontendSlugMeetsServer(s: string)
    requires Registration.MatchesSlugPattern(s)
    ensures NonEmptyString(Some(s))
  {
  }

  /** The server does not restrict the slug's characters: upper case and spaces pass. */
  lemma ServerSlugHasNoCharacterSet()
    ensures NonEmptyString(Some("A B")) && !Registration.MatchesSlugPattern("A B")
  {
    assert !Registration.IsSlugChar("A B"[0]);
  }

  /** The sign-up body the page sends when the registration call is made. */
  function ToDto(d: Registration.RegisterData): (dto: CreateUserDto)
    ensures dto.name == Some(d.name) && dto.email == Some(d.email)
    ensures dto.password == Some(d.password) && dto.slug == Some(d.slug)
    ensures dto.companyName == Some(d.companyName) && dto.nicho == Some(d.nicho)
  {
    CreateUserDto(Some(d.name), Some(d.email), Some(d.password), Some(d.companyName), Some(d.slug), Some(d.nicho))
  }

  /**
   * Whenever the corrected page makes the registration call, the server's
   * password and slug constraints hold; with name, company and niche filled in (the page
   * marks those inputs required) and an e-mail the validator accepts, the
   * whole body is valid.
   */
  lemma RegisteredFormPassesServer(f: Registration.RegisterForm, isEmail: string -> bool)
    requires Registration.CorrectedHandleSubmit(f).registered.Some?
    ensures StringOfMinLength(ToDto(Registration.CorrectedHandleSubmit(f).registered.value).password, MinPasswordLength)
    ensures NonEmptyString(ToDto(Registration.CorrectedHandleSubmit(f).registered.value).slug)
    ensures f.name != "" && f.companyName != "" && f.nicho != "" && f.email != "" && isEmail(f.email) ==>
      ValidCreateUser(ToDto(Registration.CorrectedHandleSubmit(f).registered.value), isEmail)
  {
    var d := Registration.CorrectedHandleSubmit(f).registered.value;
    FrontendSlugMeetsServer(d.slug);
  }
}
