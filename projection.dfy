/**
 * `AuthorClassProjectionView`: a read-only projection of an author with derived getters for the
 * full name and the masked account number.
 */
module Projections {
  import opened Wrappers

  /** The final fields used by the modelled getters; any of them may be null. */
  datatype AuthorClassProjectionView = AuthorClassProjectionView(
    firstName: Option<string>,
    lastName: Option<string>,
    accountNumber: Option<string>)

  /** How string concatenation renders a reference: null becomes "null". */
  function Text(s: Option<string>): string {
    match s
    case None => "null"
    case Some(t) => t
  }

  /** `getFullName`: first name, one space, last name. */
  function FullName(v: AuthorClassProjectionView): (r: string)
    ensures |r| == |Text(v.firstName)| + 1 + |Text(v.lastName)|
    ensures r[..|Text(v.firstName)|] == Text(v.firstName)
    ensures r[|Text(v.firstName)|] == ' '
    ensures r[|Text(v.firstName)| + 1..] == Text(v.lastName)
  {
    Text(v.firstName) + " " + Text(v.lastName)
  }

  /** `t` occurs in `s` starting at position `i`. */
  predicate OccursAt(s: string, t: string, i: int) {
    0 <= i <= |s| - |t| && s[i..i + |t|] == t
  }

  /** `String.contains`. */
  predicate Contains(s: string, t: string) {
    exists i | 0 <= i <= |s| :: OccursAt(s, t, i)
  }

  /** The full name contains the first name, which is what a search by first name checks. */
  lemma FullNameContainsFirstName(v: AuthorClassProjectionView)
    requires v.firstName.Some?
    ensures Contains(FullName(v), v.firstName.value)
  {
    assert OccursAt(FullName(v), v.firstName.value, 0);
  }

  /** Whether position `i` of a `len`-character account number stays visible. */
  predicate Visible(i: int, len: int) {
    i < 2 || i >= len - 2
  }

  /** The masked form: the first two and last two characters kept, every other one replaced by '*'. */
  function Masked(a: string): (r: string) {
    seq(|a|, i requires 0 <= i < |a| => if Visible(i, |a|) then a[i] else '*')
  }

  datatype NullPointerException = NullPointerException

  /**
   * `getAccountNumberMasked`: builds the masked number character by character; a null account
   * number throws.
   */
  method AccountNumberMasked(v: AuthorClassProjectionView) returns (r: Result<string, NullPointerException>)
    ensures v.accountNumber.None? ==> r == Err(NullPointerException)
    ensures v.accountNumber.Some? ==> r.Ok? && r.value == Masked(v.accountNumber.value)
    ensures r.Ok? ==> |r.value| == |v.accountNumber.value|
    ensures r.Ok? ==> forall i :: 0 <= i < |r.value| ==>
      r.value[i] == if Visible(i, |r.value|) then v.accountNumber.value[i] else '*'
  {
    if v.accountNumber.None? {
      return Err(NullPointerException);
    }
    var number := v.accountNumber.value;
    var sb: string := [];
    var i := 0;
    while i < |number|
      invariant 0 <= i <= |number|
      invariant sb == Masked(number)[..i]
    {
      if i < 2 || i >= |number| - 2 {
        sb := sb + [number[i]];
      } else {
        sb := sb + ['*'];
      }
      i := i + 1;
    }
    return Ok(sb);
  }

  /** An account number of at most four characters is shown whole. */
  lemma ShortNumberUnmasked(a: string)
    requires |a| <= 4
    ensures Masked(a) == a
  {
    assert forall i :: 0 <= i < |a| ==> Visible(i, |a|);
  }

  /** Masking an already masked number changes nothing. */
  lemma MaskIdempotent(a: string)
    ensures Masked(Masked(a)) == Masked(a)
  {
    var m := Masked(a);
    assert forall i :: 0 <= i < |m| ==> Masked(m)[i] == m[i];
  }

  /** Two numbers mask alike exactly when they have the same length and the same visible characters. */
  lemma MaskedEqual(a: string, b: string)
    ensures Masked(a) == Masked(b) <==>
      |a| == |b| && forall i :: 0 <= i < |a| && Visible(i, |a|) ==> a[i] == b[i]
  {
    if Masked(a) == Masked(b) {
      forall i | 0 <= i < |a| && Visible(i, |a|)
        ensures a[i] == b[i]
      {
        assert Masked(a)[i] == Masked(b)[i];
      }
    }
  }
}
