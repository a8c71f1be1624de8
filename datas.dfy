/** Calendar dates as the repository stores them: `str(date)` writes the ISO 8601
    complete calendar date in extended format, `YYYY-MM-DD` (section 4.1.2.2 of
    ISO 8601:2004), and reading a row back parses that text into a date again. */
module Datas {
  import opened Wrappers

  /** A Gregorian calendar date, as Python's `datetime.date` holds it. */
  datatype Data = Data(ano: int, mes: int, dia: int)

  predicate Bissexto(ano: int)
  {
    ano % 4 == 0 && (ano % 100 != 0 || ano % 400 == 0)
  }

  function DiasNoMes(ano: int, mes: int): (n: int)
    requires 1 <= mes <= 12
    ensures 28 <= n <= 31
    ensures n == 29 <==> mes == 2 && Bissexto(ano)
  {
    if mes == 2 then (if Bissexto(ano) then 29 else 28)
    else if mes == 4 || mes == 6 || mes == 9 || mes == 11 then 30
    else 31
  }

  /** The dates `datetime.date` can represent: years 1 to 9999. */
  predicate DataValida(d: Data)
  {
    1 <= d.ano <= 9999 && 1 <= d.mes <= 12 && 1 <= d.dia <= DiasNoMes(d.ano, d.mes)
  }

  predicate EhDigito(c: char)
  {
    '0' <= c <= '9'
  }

  function Digito(n: int): (c: char)
    requires 0 <= n <= 9
    ensures EhDigito(c)
  {
    ('0' as int + n) as char
  }

  function ValorDigito(c: char): (n: int)
    requires EhDigito(c)
    ensures 0 <= n <= 9
  {
    c as int - '0' as int
  }

  /** `n` written in decimal with exactly `largura` digits, zero-padded on the left. */
  function Decimal(n: nat, largura: nat): (s: string)
    ensures |s| == largura
    ensures forall i | 0 <= i < |s| :: EhDigito(s[i])
  {
    if largura == 0 then [] else Decimal(n / 10, largura - 1) + [Digito(n % 10)]
  }

  /** The value of a string of decimal digits. */
  function ValorDecimal(s: string): (n: nat)
    requires forall i | 0 <= i < |s| :: EhDigito(s[i])
  {
    if s == [] then 0 else ValorDecimal(s[..|s| - 1]) * 10 + ValorDigito(s[|s| - 1])
  }

  /** `10^k`: the bound below which a number fits in `k` decimal digits. */
  function Potencia10(k: nat): (p: nat)
    ensures p >= 1
    ensures k == 2 ==> p == 100
    ensures k == 4 ==> p == 10000
  {
    if k == 0 then 1 else 10 * Potencia10(k - 1)
  }

  /** Reading back a fixed-width decimal gives the number, when it fits. */
  lemma {:induction false} ValorDeDecimal(n: nat, largura: nat)
    requires n < Potencia10(largura)
    ensures ValorDecimal(Decimal(n, largura)) == n
  {
    if largura > 0 {
      var s := Decimal(n, largura);
      assert s[..|s| - 1] == Decimal(n / 10, largura - 1);
      ValorDigitoDe(n % 10);
      ValorDeDecimal(n / 10, largura - 1);
    }
  }

  lemma ValorDigitoDe(n: int)
    requires 0 <= n <= 9
    ensures ValorDigito(Digito(n)) == n
  {
  }

  /** A digit string is the fixed-width decimal of its own value. */
  lemma {:induction false} DecimalDeValor(s: string)
    requires forall i | 0 <= i < |s| :: EhDigito(s[i])
    ensures ValorDecimal(s) < Potencia10(|s|)
    ensures Decimal(ValorDecimal(s), |s|) == s
  {
    if s != [] {
      var p := s[..|s| - 1];
      var c := s[|s| - 1];
      DecimalDeValor(p);
      var v := ValorDecimal(s);
      assert v == ValorDecimal(p) * 10 + ValorDigito(c);
      assert v / 10 == ValorDecimal(p) && v % 10 == ValorDigito(c);
      assert Digito(ValorDigito(c)) == c;
      assert s == p + [c];
    }
  }

  /** `str(date)`: `YYYY-MM-DD`, each part zero-padded to its width. */
  function FormatarData(d: Data): (s: string)
    requires DataValida(d)
    ensures |s| == 10 && s[4] == '-' && s[7] == '-'
  {
    Decimal(d.ano, 4) + "-" + Decimal(d.mes, 2) + "-" + Decimal(d.dia, 2)
  }

  predicate DigitosEntre(s: string, i: nat, j: nat)
    requires i <= j <= |s|
  {
    forall k | i <= k < j :: EhDigito(s[k])
  }

  /** Parsing a stored `data_nascimento`: exactly ten characters, `YYYY-MM-DD`, naming
      a date that exists; anything else is not a date. */
  function ParseData(s: string): (r: Option<Data>)
    ensures r.Some? ==> DataValida(r.value)
  {
    if |s| == 10 && s[4] == '-' && s[7] == '-'
       && DigitosEntre(s, 0, 4) && DigitosEntre(s, 5, 7) && DigitosEntre(s, 8, 10)
    then
      var d := Data(ValorDecimal(s[0..4]), ValorDecimal(s[5..7]), ValorDecimal(s[8..10]));
      if DataValida(d) then Some(d) else None
    else None
  }

  /** What `str(date)` writes, the parser reads back as the same date. */
  lemma ParseDeFormatar(d: Data)
    requires DataValida(d)
    ensures ParseData(FormatarData(d)) == Some(d)
  {
    var s := FormatarData(d);
    var a, m, n := Decimal(d.ano, 4), Decimal(d.mes, 2), Decimal(d.dia, 2);
    assert s[0..4] == a && s[5..7] == m && s[8..10] == n;
    ValorDeDecimal(d.ano, 4);
    ValorDeDecimal(d.mes, 2);
    ValorDeDecimal(d.dia, 2);
  }

  /** The parser accepts only the text the formatter writes: every accepted string is
      the canonical `YYYY-MM-DD` of the date it denotes. */
  lemma FormatarDeParse(s: string)
    requires ParseData(s).Some?
    ensures FormatarData(ParseData(s).value) == s
  {
    var d := ParseData(s).value;
    DecimalDeValor(s[0..4]);
    DecimalDeValor(s[5..7]);
    DecimalDeValor(s[8..10]);
    assert s == s[0..4] + "-" + s[5..7] + "-" + s[8..10];
  }
}
