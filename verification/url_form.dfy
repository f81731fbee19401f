/**
 * The URL mapping form filter of the `/urls` route: a submitted key is kept only when its
 * value is not blank, and it is stored with surrounding whitespace removed (`str.strip()`).
 */
module UrlForm {
  import opened Chars

  /** How many whitespace characters `s` starts with. */
  function Lead(s: string): (n: nat)
    ensures n <= |s|
    ensures forall i | 0 <= i < n :: IsSpace(s[i])
    ensures n < |s| ==> !IsSpace(s[n])
  {
    if s == [] || !IsSpace(s[0]) then 0 else 1 + Lead(s[1..])
  }

  /** How many whitespace characters `s` ends with. */
  function Trail(s: string): (n: nat)
    ensures n <= |s|
    ensures forall i | |s| - n <= i < |s| :: IsSpace(s[i])
    ensures n < |s| ==> !IsSpace(s[|s| - 1 - n])
  {
    if s == [] || !IsSpace(s[|s| - 1]) then 0 else 1 + Trail(s[..|s| - 1])
  }

  /**
   * Python's `str.strip()` with no argument: the stretch of `s` between its leading and its
   * trailing whitespace, or nothing when `s` is all whitespace.
   */
  function Strip(s: string): (r: string)
    ensures Lead(s) + |r| <= |s|
    ensures r != [] ==> !IsSpace(r[0]) && !IsSpace(r[|r| - 1])
  {
    if Lead(s) == |s| then [] else s[Lead(s)..|s| - Trail(s)]
  }

  /** A value strips to nothing exactly when it is all whitespace. */
  lemma StripEmpty(s: string)
    ensures Strip(s) == [] <==> forall i | 0 <= i < |s| :: IsSpace(s[i])
  {
    if Lead(s) < |s| {
      assert !IsSpace(s[Lead(s)]);
    }
  }

  /** Text without surrounding whitespace is left alone. */
  lemma StripClean(s: string)
    requires s != [] ==> !IsSpace(s[0]) && !IsSpace(s[|s| - 1])
    ensures Strip(s) == s
  {
  }

  /** Stripping twice is stripping once. */
  lemma StripIdempotent(s: string)
    ensures Strip(Strip(s)) == Strip(s)
  {
    StripClean(Strip(s));
  }

  /** The mapping the route stores: every non-blank submitted value, stripped. */
  function Kept(form: map<string, string>): map<string, string>
  {
    map key | key in form && Strip(form[key]) != [] :: Strip(form[key])
  }

  /** No stored value is empty or starts or ends with whitespace, and storing is stable. */
  lemma KeptValuesClean(form: map<string, string>, key: string)
    requires key in Kept(form)
    ensures Kept(form)[key] != []
    ensures !IsSpace(Kept(form)[key][0]) && !IsSpace(Kept(form)[key][|Kept(form)[key]| - 1])
    ensures key in Kept(Kept(form)) && Kept(Kept(form))[key] == Kept(form)[key]
  {
    StripIdempotent(form[key]);
  }

  /** The filter loop of the `/urls` route, visiting the submitted keys one at a time. */
  method FilterUrls(form: map<string, string>) returns (urls: map<string, string>)
    ensures forall key :: key in urls <==> key in form && Strip(form[key]) != []
    ensures forall key | key in urls :: urls[key] == Strip(form[key])
    ensures urls == Kept(form)
  {
    urls := map[];
    var todo := form.Keys;
    while todo != {}
      invariant todo <= form.Keys
      invariant forall key :: key in urls <==> key in form && key !in todo && Strip(form[key]) != []
      invariant forall key | key in urls :: urls[key] == Strip(form[key])
      decreases |todo|
    {
      var key :| key in todo;
      var value := Strip(form[key]);
      if value != [] {
        urls := urls[key := value];
      }
      todo := todo - {key};
    }
    assert urls.Keys == Kept(form).Keys;
  }
}
