/**
 * The public feedback form: the category buttons that toggle a category in
 * or out of the form's list, and the submit status IDLE -> SENDING ->
 * SUCCESS / ERROR.
 */
module ClientForm {
  import opened Common

  /** The categories the form offers, in display order. */
  const Options: seq<string> :=
    ["Atendimento Lento", "Falta de Empatia", "Informação Confusa", "Preço Alto", "Problema Técnico", "Elogio"]

  /** `s` with every occurrence of `x` removed, the rest kept in order (`filter(c => c !== x)`). */
  function Without(s: seq<string>, x: string): (r: seq<string>)
    ensures x !in r
    ensures forall c :: c != x ==> (c in r <==> c in s)
    ensures |r| <= |s|
  {
    if s == [] then []
    else if s[0] == x then Without(s[1..], x)
    else [s[0]] + Without(s[1..], x)
  }

  /** Removing commutes with concatenation: no element is moved across the cut. */
  lemma {:induction false} WithoutAppend(a: seq<string>, b: seq<string>, x: string)
    ensures Without(a + b, x) == Without(a, x) + Without(b, x)
  {
    if a == [] {
      assert a + b == b;
    } else {
      assert (a + b)[0] == a[0] && (a + b)[1..] == a[1..] + b;
      WithoutAppend(a[1..], b, x);
    }
  }

  /** Removing an element that does not occur changes nothing. */
  lemma {:induction false} WithoutAbsent(s: seq<string>, x: string)
    requires x !in s
    ensures Without(s, x) == s
  {
    if s != [] {
      WithoutAbsent(s[1..], x);
    }
  }

  /** Removing keeps a list free of duplicates. */
  lemma {:induction false} WithoutNoDup(s: seq<string>, x: string)
    requires NoDup(s)
    ensures NoDup(Without(s, x))
  {
    if s != [] {
      NoDupTail(s);
      WithoutNoDup(s[1..], x);
      if s[0] != x {
        NoDupCons(s[0], Without(s[1..], x));
      }
    }
  }

  lemma NoDupTail(s: seq<string>)
    requires NoDup(s) && s != []
    ensures NoDup(s[1..]) && s[0] !in s[1..]
  {
    forall i, j | 0 <= i < j < |s[1..]| ensures s[1..][i] != s[1..][j] {
      assert s[1..][i] == s[i + 1] && s[1..][j] == s[j + 1];
    }
  }

  lemma NoDupCons(h: string, t: seq<string>)
    requires NoDup(t) && h !in t
    ensures NoDup([h] + t)
  {
    var r := [h] + t;
    forall i, j | 0 <= i < j < |r| ensures r[i] != r[j] {
      assert r[j] == t[j - 1];
      if i > 0 {
        assert r[i] == t[i - 1];
      }
    }
  }

  /**
   * The categories after clicking the button for `option`: removed
   * everywhere if present, appended at the end if absent.
   */
  function Toggled(categories: seq<string>, option: string): (r: seq<string>)
    ensures option in r <==> option !in categories
    ensures forall c :: c != option ==> (c in r <==> c in categories)
    ensures Without(r, option) == Without(categories, option)
  {
    if option in categories then
      WithoutIdempotent(categories, option);
      Without(categories, option)
    else
      WithoutAppend(categories, [option], option);
      categories + [option]
  }

  /** Removing twice is removing once. */
  lemma WithoutIdempotent(s: seq<string>, x: string)
    ensures Without(Without(s, x), x) == Without(s, x)
  {
    WithoutAbsent(Without(s, x), x);
  }

  /** A toggle whose option was absent appends it at the very end. */
  lemma ToggledAbsentAppends(categories: seq<string>, option: string)
    requires option !in categories
    ensures Toggled(categories, option) == categories + [option]
    ensures |Toggled(categories, option)| == |categories| + 1
  {
  }

  /** A toggle whose option was present removes every occurrence and nothing else. */
  lemma ToggledPresentRemovesAll(categories: seq<string>, option: string)
    requires option in categories
    ensures Toggled(categories, option) == Without(categories, option)
    ensures |Toggled(categories, option)| < |categories|
  {
    var i :| 0 <= i < |categories| && categories[i] == option;
    WithoutShrinks(categories, option, i);
  }

  lemma {:induction false} WithoutShrinks(s: seq<string>, x: string, i: int)
    requires 0 <= i < |s| && s[i] == x
    ensures |Without(s, x)| < |s|
  {
    if i > 0 {
      WithoutShrinks(s[1..], x, i - 1);
    }
  }

  /** Toggling an absent option twice gives back exactly the original list. */
  lemma ToggleTwiceRestores(categories: seq<string>, option: string)
    requires option !in categories
    ensures Toggled(Toggled(categories, option), option) == categories
  {
    WithoutAppend(categories, [option], option);
    WithoutAbsent(categories, option);
  }

  /** Toggling only offered options keeps the list within the offered options. */
  lemma ToggledWithinOptions(categories: seq<string>, option: string)
    requires forall c :: c in categories ==> c in Options
    requires option in Options
    ensures forall c :: c in Toggled(categories, option) ==> c in Options
  {
  }

  /** A duplicate-free list stays duplicate-free under a toggle. */
  lemma ToggledNoDup(categories: seq<string>, option: string)
    requires NoDup(categories)
    ensures NoDup(Toggled(categories, option))
  {
    if option in categories {
      WithoutNoDup(categories, option);
    }
  }

  /** The submit status of the form. */
  datatype Status = Idle | Sending | Success | Error

  /** The form page's state: the fields it posts and its submit status. */
  class FeedbackForm {
    var customerName: string
    var email: string
    var content: string
    var categories: seq<string>
    var status: Status

    constructor ()
      ensures customerName == "" && email == "" && content == ""
      ensures categories == [] && status == Idle
    {
      customerName, email, content := "", "", "";
      categories := [];
      status := Idle;
    }

    /** The submit button is disabled exactly while a post is in flight. */
    predicate SubmitDisabled()
      reads this
      ensures SubmitDisabled() <==> status != Idle && status != Success && status != Error
    {
      status == Sending
    }

    /** Clicking a category button. */
    method ToggleCategory(option: string)
      modifies this`categories
      ensures categories == Toggled(old(categories), option)
    {
      categories := Toggled(categories, option);
    }

    /** First half of the submit handler: before the post is awaited. */
    method BeginSubmit()
      modifies this`status
      ensures status == Sending && SubmitDisabled()
    {
      status := Sending;
    }

    /** Second half of the submit handler: `posted` is whether the post resolved. */
    method FinishSubmit(posted: bool)
      modifies this`status
      ensures status == (if posted then Success else Error)
      ensures !SubmitDisabled()
    {
      if posted {
        status := Success;
      } else {
        status := Error;
      }
    }
  }
}
