/** Python's `str.strip()` with no argument, as used by the entity validators on
    `nome` and `crime`: it removes the longest whitespace prefix and then the longest
    whitespace suffix, where whitespace is what `str.isspace()` accepts. */
module Texto {

  /** The characters for which Python's `str.isspace()` is true: the ASCII controls
      tab to carriage return, the separators 0x1C to 0x1F, space, and the Unicode
      white space and line and paragraph separators. */
  predicate EhEspaco(c: char)
  {
    var n := c as int;
    (0x09 <= n <= 0x0D) || (0x1C <= n <= 0x20) || n == 0x85 || n == 0xA0 || n == 0x1680
    || (0x2000 <= n <= 0x200A) || n == 0x2028 || n == 0x2029 || n == 0x202F
    || n == 0x205F || n == 0x3000
  }

  /** Every character of `s` in positions `i` up to (not including) `j` is whitespace. */
  predicate EspacosEntre(s: string, i: int, j: int)
    requires 0 <= i && j <= |s|
  {
    forall m | i <= m < j :: EhEspaco(s[m])
  }

  predicate TodoEspaco(s: string)
  {
    EspacosEntre(s, 0, |s|)
  }

  /** A trimmed string: empty, or neither its first nor its last character is whitespace. */
  predicate Aparado(s: string)
  {
    s == [] || (!EhEspaco(s[0]) && !EhEspaco(s[|s| - 1]))
  }

  /** `lstrip()` from position `i`: the first position at or after `i` that is not
      whitespace, or `|s|`. */
  function InicioTexto(s: string, i: nat): (k: nat)
    requires i <= |s|
    ensures i <= k <= |s| && EspacosEntre(s, i, k)
    ensures k < |s| ==> !EhEspaco(s[k])
    decreases |s| - i
  {
    if i < |s| && EhEspaco(s[i]) then InicioTexto(s, i + 1) else i
  }

  /** `rstrip()` down to position `lo`: the end of the text that remains once the
      whitespace before position `j` is dropped, never going below `lo`. */
  function FimTexto(s: string, lo: nat, j: nat): (k: nat)
    requires lo <= j <= |s|
    ensures lo <= k <= j && EspacosEntre(s, k, j)
    ensures k > lo ==> !EhEspaco(s[k - 1])
  {
    if j > lo && EhEspaco(s[j - 1]) then FimTexto(s, lo, j - 1) else j
  }

  /** Where the stripped text starts. */
  function Recuo(s: string): (k: nat)
    ensures k <= |s|
  {
    InicioTexto(s, 0)
  }

  /** `strip()`: the input is whitespace, then the result, then whitespace; the result
      is trimmed, and it is empty exactly when the whole input is whitespace. */
  function Strip(s: string): (r: string)
    ensures Aparado(r)
    ensures Recuo(s) + |r| <= |s| && r == s[Recuo(s)..Recuo(s) + |r|]
    ensures EspacosEntre(s, 0, Recuo(s)) && EspacosEntre(s, Recuo(s) + |r|, |s|)
    ensures r == [] <==> TodoEspaco(s)
  {
    var i := InicioTexto(s, 0);
    var j := FimTexto(s, i, |s|);
    assert i < |s| ==> j > i;
    s[i..j]
  }

  /** `InicioTexto` is determined by its postcondition. */
  lemma {:induction false} InicioTextoUnico(s: string, i: nat, k: nat)
    requires i <= k <= |s| && EspacosEntre(s, i, k)
    requires k < |s| ==> !EhEspaco(s[k])
    ensures InicioTexto(s, i) == k
    decreases k - i
  {
    if i < k {
      InicioTextoUnico(s, i + 1, k);
    }
  }

  /** `FimTexto` is determined by its postcondition. */
  lemma {:induction false} FimTextoUnico(s: string, lo: nat, j: nat, k: nat)
    requires lo <= k <= j <= |s| && EspacosEntre(s, k, j)
    requires k > lo ==> !EhEspaco(s[k - 1])
    ensures FimTexto(s, lo, j) == k
    decreases j - k
  {
    if k < j {
      FimTextoUnico(s, lo, j - 1, k);
    }
  }

  /** `strip()` is characterised by its decomposition: whenever the input is whitespace,
      then a trimmed text, then whitespace, the result is that text. */
  lemma StripCaracterizado(a: string, t: string, b: string)
    requires TodoEspaco(a) && Aparado(t) && TodoEspaco(b)
    ensures Strip(a + t + b) == t
  {
    var s := a + t + b;
    if t == [] {
      assert s == a + b;
      InicioTextoUnico(s, 0, |s|);
      assert Strip(s) == s[|s|..|s|];
    } else {
      assert s[|a|] == t[0];
      InicioTextoUnico(s, 0, |a|);
      assert s[|a| + |t| - 1] == t[|t| - 1];
      FimTextoUnico(s, |a|, |s|, |a| + |t|);
      assert s[|a|..|a| + |t|] == t;
    }
  }

  /** Stripping twice is stripping once. */
  lemma StripIdempotente(s: string)
    ensures Strip(Strip(s)) == Strip(s)
  {
    StripDeAparado(Strip(s));
  }

  /** A trimmed string is its own strip. */
  lemma StripDeAparado(t: string)
    requires Aparado(t)
    ensures Strip(t) == t
  {
    assert [] + t + [] == t;
    StripCaracterizado([], t, []);
  }

  /** Surrounding whitespace does not change the result of `strip()`. */
  lemma StripIgnoraEspacos(a: string, s: string, b: string)
    requires TodoEspaco(a) && TodoEspaco(b)
    ensures Strip(a + s + b) == Strip(s)
  {
    var t := Strip(s);
    var i := Recuo(s);
    var a', b' := a + s[..i], s[i + |t|..] + b;
    assert s == s[..i] + t + s[i + |t|..];
    assert TodoEspaco(a') by {
      forall m | 0 <= m < |a'| ensures EhEspaco(a'[m]) {
        if m >= |a| { assert a'[m] == s[m - |a|]; }
      }
    }
    assert TodoEspaco(b') by {
      forall m | 0 <= m < |b'| ensures EhEspaco(b'[m]) {
        if m < |s| - (i + |t|) { assert b'[m] == s[i + |t| + m]; }
      }
    }
    assert a + s + b == a' + t + b';
    StripCaracterizado(a', t, b');
  }
}
