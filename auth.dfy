// The base authentication policy: which request paths are exempt from
// authentication, and where a request carries its credentials.
//
// `require_auth` turns each exclusion into a regular expression and tries
// it with `re.match`, which anchors only at the start of the path. The
// three patterns it builds (`<stem>.*` for a trailing `*`, `<stem>/*` for a
// trailing `/`, `<exclusion>/*` otherwise) each match exactly the paths that
// start with the stem, because `.*` and `/*` may match nothing. The model
// states that prefix rule directly, taking the stem's characters literally.
module AuthPolicy {
  import opened Types
  import opened Text

  /**
   * What `require_auth` does: return a verdict, or raise `IndexError`
   * when it reaches an exclusion that strips to the empty string
   * (`exclusion_path[-1]` on `''`).
   */
  datatype Decision = Returns(required: bool) | RaisesIndexError

  /** The literal text the pattern built from exclusion `e` starts with. */
  function Stem(e: string): string
    requires e != []
  {
    if e[|e| - 1] == '*' then e[..|e| - 1]
    else if e[|e| - 1] == '/' then e[..|e| - 1]
    else e
  }

  /** `re.match(pattern, path)` succeeds for the pattern built from `e`. */
  predicate Exempts(e: string, path: string)
    requires e != []
  {
    Stem(e) <= path
  }

  /** The exclusions as the loop sees them: `map(lambda x: x.strip(), excluded_paths)`. */
  function StripAll(xs: seq<string>): (es: seq<string>)
    ensures |es| == |xs| && forall i :: 0 <= i < |xs| ==> es[i] == Strip(xs[i])
  {
    seq(|xs|, i requires 0 <= i < |xs| => Strip(xs[i]))
  }

  /** The loop of `require_auth` over the stripped exclusions, in list order. */
  function Scan(path: string, es: seq<string>): Decision
  {
    if es == [] then Returns(true)
    else if es[0] == [] then RaisesIndexError
    else if Exempts(es[0], path) then Returns(false)
    else Scan(path, es[1..])
  }

  /** The decision `require_auth(path, excluded_paths)` reaches. */
  function AuthRequired(path: Option<string>, excludedPaths: Option<seq<string>>): (d: Decision)
    ensures path.None? || excludedPaths.None? ==> d == Returns(true)
    ensures excludedPaths == Some([]) ==> d == Returns(true)
  {
    if path.Some? && excludedPaths.Some? then Scan(path.value, StripAll(excludedPaths.value))
    else Returns(true)
  }

  /** One step of the scan, taken at position `i`. */
  lemma ScanAt(path: string, es: seq<string>, i: nat)
    requires i < |es|
    ensures Scan(path, es[i..])
         == if es[i] == [] then RaisesIndexError
            else if Exempts(es[i], path) then Returns(false)
            else Scan(path, es[i + 1..])
  {
    assert es[i..][0] == es[i] && es[i..][1..] == es[i + 1..];
  }

  /** `Auth.require_auth`, loop and early returns as written. */
  method RequireAuth(path: Option<string>, excludedPaths: Option<seq<string>>) returns (d: Decision)
    ensures d == AuthRequired(path, excludedPaths)
  {
    if path.Some? && excludedPaths.Some? {
      var p, xs := path.value, excludedPaths.value;
      ghost var es := StripAll(xs);
      var i := 0;
      while i < |xs|
        invariant 0 <= i <= |xs|
        invariant Scan(p, es) == Scan(p, es[i..])
      {
        ScanAt(p, es, i);
        var e := Strip(xs[i]);
        if e == [] {
          return RaisesIndexError;
        }
        var stem;
        if e[|e| - 1] == '*' {
          stem := e[..|e| - 1];
        } else if e[|e| - 1] == '/' {
          stem := e[..|e| - 1];
        } else {
          stem := e;
        }
        assert stem == Stem(e);
        if stem <= p {
          return Returns(false);
        }
        i := i + 1;
      }
      assert es[i..] == [];
    }
    return Returns(true);
  }

  /** No exclusion of `xs` strips to the empty string. */
  predicate NoBlank(xs: seq<string>) {
    forall i :: 0 <= i < |xs| ==> Strip(xs[i]) != []
  }

  /** A stripped exclusion at `i` that exempts the path, behind only non-blank ones, ends the scan with `False`. */
  lemma {:induction false} ExemptionFound(path: string, es: seq<string>, i: nat)
    requires i < |es| && es[i] != [] && Exempts(es[i], path)
    requires forall j :: 0 <= j < i ==> es[j] != []
    ensures Scan(path, es) == Returns(false)
  {
    if i > 0 && !Exempts(es[0], path) {
      assert es[1..][i - 1] == es[i];
      ExemptionFound(path, es[1..], i - 1);
    }
  }

  /** When no stripped exclusion is blank or exempts the path, the scan ends with `True`. */
  lemma {:induction false} NoExemptionFound(path: string, es: seq<string>)
    requires forall i :: 0 <= i < |es| ==> es[i] != [] && !Exempts(es[i], path)
    ensures Scan(path, es) == Returns(true)
  {
    if es != [] {
      assert es[0] != [] && !Exempts(es[0], path);
      NoExemptionFound(path, es[1..]);
    }
  }

  /**
   * When no exclusion is blank, authentication is required exactly when
   * no (stripped) exclusion exempts the path.
   */
  lemma RequiredIffNoExemption(path: string, xs: seq<string>)
    requires NoBlank(xs)
    ensures AuthRequired(Some(path), Some(xs))
         == Returns(!exists i :: 0 <= i < |xs| && Exempts(Strip(xs[i]), path))
  {
    var es := StripAll(xs);
    if i :| 0 <= i < |xs| && Exempts(Strip(xs[i]), path) {
      ExemptionFound(path, es, i);
    } else {
      NoExemptionFound(path, es);
    }
  }

  /** The scan moves past exclusion `x`: it is not blank and does not exempt the path. */
  predicate PassesOver(x: string, path: string) {
    Strip(x) != [] && !Exempts(Strip(x), path)
  }

  /** A blank stripped exclusion at `i`, behind only ones the scan passes over, raises. */
  lemma {:induction false} BlankFound(path: string, es: seq<string>, i: nat)
    requires i < |es| && es[i] == []
    requires forall j :: 0 <= j < i ==> es[j] != [] && !Exempts(es[j], path)
    ensures Scan(path, es) == RaisesIndexError
  {
    if i > 0 {
      assert es[0] != [] && !Exempts(es[0], path);
      assert es[1..][i - 1] == es[i];
      BlankFound(path, es[1..], i - 1);
    }
  }

  /** A scan that raises has met a blank exclusion before any exempting one. */
  lemma {:induction false} RaisedAtBlank(path: string, es: seq<string>) returns (i: nat)
    requires Scan(path, es) == RaisesIndexError
    ensures i < |es| && es[i] == []
    ensures forall j :: 0 <= j < i ==> es[j] != [] && !Exempts(es[j], path)
  {
    if es[0] == [] {
      i := 0;
    } else {
      var k := RaisedAtBlank(path, es[1..]);
      i := k + 1;
      assert es[i] == es[1..][k];
      forall j | 0 < j < i ensures es[j] != [] && !Exempts(es[j], path) {
        assert es[j] == es[1..][j - 1];
      }
    }
  }

  /**
   * When `require_auth` raises `IndexError`, it has met a blank exclusion
   * at some `i`, and passed over every exclusion before it.
   */
  lemma RaisesOnlyAtBlank(path: string, xs: seq<string>) returns (i: nat)
    requires AuthRequired(Some(path), Some(xs)) == RaisesIndexError
    ensures i < |xs| && Strip(xs[i]) == []
    ensures forall j :: 0 <= j < i ==> PassesOver(xs[j], path)
  {
    i := RaisedAtBlank(path, StripAll(xs));
  }

  /** A blank exclusion that comes before every exempting one makes `require_auth` raise `IndexError`. */
  lemma RaisesAtFirstBlank(path: string, xs: seq<string>, i: nat)
    requires i < |xs| && Strip(xs[i]) == []
    requires forall j :: 0 <= j < i ==> PassesOver(xs[j], path)
    ensures AuthRequired(Some(path), Some(xs)) == RaisesIndexError
  {
    var es := StripAll(xs);
    forall j | 0 <= j < i ensures es[j] != [] && !Exempts(es[j], path) {
      assert es[j] == Strip(xs[j]) && PassesOver(xs[j], path);
    }
    assert es[i] == Strip(xs[i]);
    BlankFound(path, es, i);
  }

  /** The decision does not depend on the order of the exclusions. */
  lemma OrderIrrelevant(path: string, xs: seq<string>, ys: seq<string>)
    requires NoBlank(xs)
    requires multiset(xs) == multiset(ys)
    ensures AuthRequired(Some(path), Some(xs)) == AuthRequired(Some(path), Some(ys))
  {
    forall j | 0 <= j < |ys| ensures Strip(ys[j]) != [] && exists i :: 0 <= i < |xs| && xs[i] == ys[j] {
      assert ys[j] in multiset(xs);
    }
    RequiredIffNoExemption(path, xs);
    RequiredIffNoExemption(path, ys);
    forall i | 0 <= i < |xs| && Exempts(Strip(xs[i]), path)
      ensures exists j :: 0 <= j < |ys| && Exempts(Strip(ys[j]), path)
    {
      assert xs[i] in multiset(ys);
      var j :| 0 <= j < |ys| && ys[j] == xs[i];
    }
  }

  /** With a single exclusion the loop runs at most once. */
  lemma ScanSingle(path: string, x: string)
    ensures AuthRequired(Some(path), Some([x]))
         == if Strip(x) == [] then RaisesIndexError else Returns(!Exempts(Strip(x), path))
  {
    var e := Strip(x);
    assert StripAll([x]) == [e];
    ScanAt(path, [e], 0);
    assert [e][1..] == [];
  }

  /** An exclusion ending in `*` exempts exactly the paths starting with what precedes the `*`. */
  lemma StarExclusion(x: string, path: string)
    requires var e := Strip(x); e != [] && e[|e| - 1] == '*'
    ensures var e := Strip(x);
      AuthRequired(Some(path), Some([x])) == Returns(!(e[..|e| - 1] <= path))
  {
    ScanSingle(path, x);
  }

  /**
   * An exclusion ending in `/` exempts the path without its trailing slash,
   * the path with it, and every other path starting with the part before the slash.
   */
  lemma SlashExclusion(x: string, path: string)
    requires var e := Strip(x); e != [] && e[|e| - 1] == '/'
    ensures var e := Strip(x);
      && AuthRequired(Some(path), Some([x])) == Returns(!(e[..|e| - 1] <= path))
      && AuthRequired(Some(e), Some([x])) == Returns(false)
      && AuthRequired(Some(e[..|e| - 1]), Some([x])) == Returns(false)
  {
    ScanSingle(path, x);
    ScanSingle(Strip(x), x);
    ScanSingle(Strip(x)[..|Strip(x)| - 1], x);
  }

  /**
   * An exclusion ending in neither `*` nor `/` exempts every path that
   * starts with it, not only the exclusion itself.
   */
  lemma PlainExclusion(x: string, path: string, rest: string)
    requires var e := Strip(x); e != [] && e[|e| - 1] != '*' && e[|e| - 1] != '/'
    ensures var e := Strip(x);
      && AuthRequired(Some(path), Some([x])) == Returns(!(e <= path))
      && AuthRequired(Some(e + rest), Some([x])) == Returns(false)
  {
    var e := Strip(x);
    ScanSingle(path, x);
    ScanSingle(e + rest, x);
    assert e <= e + rest;
  }

  /** The value of the `Authorization` header, or `None`. */
  function AuthorizationHeader(request: Option<Request>): (h: Option<string>)
    ensures h.Some? <==> request.Some? && "Authorization" in request.value.headers
    ensures h.Some? ==> h.value == request.value.headers["Authorization"]
  {
    if request.None? then None
    else if "Authorization" in request.value.headers then Some(request.value.headers["Authorization"])
    else None
  }

  /**
   * The value of the cookie named by `SESSION_NAME`, or `None`. The
   * environment variable may be unset, in which case no cookie matches.
   */
  function SessionCookie(request: Option<Request>, sessionName: Option<string>): (c: Option<string>)
    ensures c.Some? <==> request.Some? && sessionName.Some? && sessionName.value in request.value.cookies
    ensures c.Some? ==> c.value == request.value.cookies[sessionName.value]
  {
    if request.None? || sessionName.None? then None
    else if sessionName.value in request.value.cookies then Some(request.value.cookies[sessionName.value])
    else None
  }
}
