/** The page's e-mail check `isValidEmail`, the regular expression
    `/^[^\s@]+@[^\s@]+\.[^\s@]+$/`, and a plain description of the addresses it
    accepts. */
module Email {
  import opened JsString

  /** A run matched by `[^\s@]+` when non-empty: no white space, no `@`. */
  predicate Plain(s: string) {
    forall i :: 0 <= i < |s| ==> !IsSpace(s[i]) && s[i] != '@'
  }

  /** `isValidEmail(s)`: `s` splits as `local@domain.suffix`, three non-empty
      plain runs; the domain run may itself hold dots, as the regular
      expression backtracks over them. */
  predicate IsValidEmail(s: string) {
    exists a, b :: 0 < a < |s| && a + 1 < b < |s| - 1 && s[a] == '@' && s[b] == '.'
                   && Plain(s[..a]) && Plain(s[a + 1..b]) && Plain(s[b + 1..])
  }

  /** The number of occurrences of `c` in `s`. */
  function Count(s: string, c: char): (n: nat)
    ensures n == 0 <==> forall i :: 0 <= i < |s| ==> s[i] != c
  {
    if s == [] then 0 else (if s[0] == c then 1 else 0) + Count(s[1..], c)
  }

  lemma {:induction false} CountAppend(s: string, t: string, c: char)
    ensures Count(s + t, c) == Count(s, c) + Count(t, c)
  {
    if s == [] {
      assert s + t == t;
    } else {
      assert (s + t)[0] == s[0] && (s + t)[1..] == s[1..] + t;
      CountAppend(s[1..], t, c);
    }
  }

  /** `s.indexOf(c)`, with `|s|` standing for "not found". */
  function IndexOf(s: string, c: char): (k: nat)
    ensures k <= |s| && (k < |s| ==> s[k] == c)
    ensures forall i :: 0 <= i < k ==> s[i] != c
  {
    if s == [] then 0
    else if s[0] == c then 0
    else 1 + IndexOf(s[1..], c)
  }

  /** The first occurrence of `c` is at `a` when `s[a]` is one and no
      character before it is. */
  lemma {:induction false} IndexOfFirst(s: string, c: char, a: nat)
    requires a < |s| && s[a] == c && forall i :: 0 <= i < a ==> s[i] != c
    ensures IndexOf(s, c) == a
  {
    if a > 0 {
      IndexOfFirst(s[1..], c, a - 1);
    }
  }

  /** `d` has a dot that is neither its first nor its last character. */
  predicate HasInnerDot(d: string) {
    exists i :: 0 < i < |d| - 1 && d[i] == '.'
  }

  /** The addresses `isValidEmail` accepts, described without the regular
      expression: no white space, exactly one `@`, something before it, and
      after it a dot that is neither first nor last. */
  predicate EmailShape(s: string) {
    && (forall i :: 0 <= i < |s| ==> !IsSpace(s[i]))
    && Count(s, '@') == 1
    && IndexOf(s, '@') > 0
    && HasInnerDot(s[IndexOf(s, '@') + 1..])
  }

  /** The regular expression accepts exactly the addresses of that shape. */
  lemma {:induction false} EmailShapeIff(s: string)
    ensures IsValidEmail(s) <==> EmailShape(s)
  {
    if IsValidEmail(s) {
      ShapeOfValid(s);
    }
    if EmailShape(s) {
      ValidOfShape(s);
    }
  }

  lemma {:induction false} ShapeOfValid(s: string)
    requires IsValidEmail(s)
    ensures EmailShape(s)
  {
    var a, b :| 0 < a < |s| && a + 1 < b < |s| - 1 && s[a] == '@' && s[b] == '.'
                && Plain(s[..a]) && Plain(s[a + 1..b]) && Plain(s[b + 1..]);
    ShapeOfSplit(s, a, b);
  }

  /** An address split at `@` position `a` and dot position `b` as the
      regular expression matches it has the shape. */
  lemma {:induction false} ShapeOfSplit(s: string, a: nat, b: nat)
    requires 0 < a < |s| && a + 1 < b < |s| - 1 && s[a] == '@' && s[b] == '.'
    requires Plain(s[..a]) && Plain(s[a + 1..b]) && Plain(s[b + 1..])
    ensures EmailShape(s)
  {
    SplitAt(s, a, b);
    assert forall i :: 0 <= i < a ==> s[i] == s[..a][i];
    IndexOfFirst(s, '@', a);
    var domain := s[a + 1..];
    assert domain[b - a - 1] == '.';
    assert HasInnerDot(domain);
  }

  /** The pieces of an accepted address: one `@`, and no white space. */
  lemma {:induction false} SplitAt(s: string, a: nat, b: nat)
    requires 0 < a < |s| && a + 1 < b < |s| - 1 && s[a] == '@' && s[b] == '.'
    requires Plain(s[..a]) && Plain(s[a + 1..b]) && Plain(s[b + 1..])
    ensures Plain(s[a + 1..]) && Count(s, '@') == 1
    ensures forall i :: 0 <= i < |s| ==> !IsSpace(s[i])
  {
    var local, domain := s[..a], s[a + 1..];
    assert Plain(domain) by {
      forall j | 0 <= j < |domain| ensures !IsSpace(domain[j]) && domain[j] != '@' {
        if j < b - a - 1 { assert domain[j] == s[a + 1..b][j]; }
        else if j > b - a - 1 { assert domain[j] == s[b + 1..][j - (b - a)]; }
      }
    }
    assert s == local + [s[a]] + domain;
    CountAppend(local, [s[a]], '@');
    CountAppend(local + [s[a]], domain, '@');
    forall i | 0 <= i < |s| ensures !IsSpace(s[i]) {
      if i < a { assert s[i] == local[i]; }
      else if a < i { assert s[i] == domain[i - a - 1]; }
    }
  }

  lemma {:induction false} ValidOfShape(s: string)
    requires EmailShape(s)
    ensures IsValidEmail(s)
  {
    var a := IndexOf(s, '@');
    var domain := s[a + 1..];
    var i :| 0 < i < |domain| - 1 && domain[i] == '.';
    var b := a + 1 + i;
    DomainPlain(s, a);
    assert s[a] == '@' && s[b] == '.';
    var local, mid, suffix := s[..a], s[a + 1..b], s[b + 1..];
    forall j | 0 <= j < |local| ensures !IsSpace(local[j]) && local[j] != '@' {
      assert local[j] == s[j];
    }
    forall j | 0 <= j < |mid| ensures !IsSpace(mid[j]) && mid[j] != '@' {
      assert mid[j] == domain[j];
    }
    forall j | 0 <= j < |suffix| ensures !IsSpace(suffix[j]) && suffix[j] != '@' {
      assert suffix[j] == domain[i + 1 + j];
    }
  }

  /** In an address of the shape, everything after the `@` is one plain run. */
  lemma {:induction false} DomainPlain(s: string, a: nat)
    requires EmailShape(s) && a == IndexOf(s, '@')
    ensures a < |s| && Plain(s[a + 1..])
  {
    var local, domain := s[..a], s[a + 1..];
    assert s == local + [s[a]] + domain;
    CountAppend(local + [s[a]], domain, '@');
    CountAppend(local, [s[a]], '@');
    assert Count(local, '@') == 0 by {
      assert forall j :: 0 <= j < a ==> local[j] == s[j];
    }
    forall j | 0 <= j < |domain| ensures !IsSpace(domain[j]) && domain[j] != '@' {
      assert domain[j] == s[a + 1 + j];
    }
  }
}
