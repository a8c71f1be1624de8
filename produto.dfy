/** The `Presidiario` entity and its field validators. Construction runs every field's
    validator; it yields an entity only when all of them pass, and otherwise reports
    the error of every failing field, in the order the fields are declared. */
module Produto {
  import opened Wrappers
  import opened Texto
  import opened Datas

  const LIMITE_NOME := 100
  const LIMITE_CRIME := 200

  datatype Presidiario = Presidiario(
    id: Option<int>,
    nome: string,
    dataNascimento: Data,
    crime: string,
    cela: int)

  datatype Campo = Id | Nome | DataNascimento | Crime | Cela

  datatype Erro =
    | IdNaoPositivo
    | NomeVazio
    | NomeMuitoLongo
    | DataInvalida
    | CrimeVazio
    | CrimeMuitoLongo
    | CelaNaoPositiva

  /** The field an error is reported against. */
  function CampoDe(e: Erro): Campo
  {
    match e
    case IdNaoPositivo => Id
    case NomeVazio | NomeMuitoLongo => Nome
    case DataInvalida => DataNascimento
    case CrimeVazio | CrimeMuitoLongo => Crime
    case CelaNaoPositiva => Cela
  }

  /** Declaration order of the fields. */
  function Posicao(c: Campo): nat
  {
    match c
    case Id => 0
    case Nome => 1
    case DataNascimento => 2
    case Crime => 3
    case Cela => 4
  }

  /** The entity invariant: what every constructed `Presidiario` satisfies. */
  predicate Valido(p: Presidiario)
  {
    && (p.id.None? || p.id.value > 0)
    && Aparado(p.nome) && 0 < |p.nome| <= LIMITE_NOME
    && DataValida(p.dataNascimento)
    && Aparado(p.crime) && 0 < |p.crime| <= LIMITE_CRIME
    && p.cela > 0
  }

  /** `validar_id`: absent or positive; a present id is kept as given. */
  function ValidarId(v: Option<int>): (r: Result<Option<int>, Erro>)
    ensures r.Ok? <==> v.None? || v.value > 0
    ensures r.Ok? ==> r.value == v
    ensures r.Err? ==> r.error == IdNaoPositivo
  {
    if v.Some? && v.value <= 0 then Err(IdNaoPositivo) else Ok(v)
  }

  /** `validar_nome`: the stored name is the stripped input; all-whitespace input is
      empty, and the limit applies to the stripped length. */
  function ValidarNome(v: string): (r: Result<string, Erro>)
    ensures r == Err(NomeVazio) <==> TodoEspaco(v)
    ensures r == Err(NomeMuitoLongo) <==> |Strip(v)| > LIMITE_NOME
    ensures r.Ok? <==> !TodoEspaco(v) && |Strip(v)| <= LIMITE_NOME
    ensures r.Ok? ==> r.value == Strip(v) && Aparado(r.value) && 0 < |r.value| <= LIMITE_NOME
  {
    var limpo := Strip(v);
    if |limpo| == 0 then Err(NomeVazio)
    else if |limpo| > LIMITE_NOME then Err(NomeMuitoLongo)
    else Ok(limpo)
  }

  /** The `date` field: a date that exists, or an error for text that does not parse. */
  function ValidarData(d: Option<Data>): (r: Result<Data, Erro>)
    ensures r.Ok? <==> d.Some? && DataValida(d.value)
    ensures r.Ok? ==> r.value == d.value
    ensures r.Err? ==> r.error == DataInvalida
  {
    if d.Some? && DataValida(d.value) then Ok(d.value) else Err(DataInvalida)
  }

  /** `validar_crime`: as for the name, with a limit of 200. */
  function ValidarCrime(v: string): (r: Result<string, Erro>)
    ensures r == Err(CrimeVazio) <==> TodoEspaco(v)
    ensures r == Err(CrimeMuitoLongo) <==> |Strip(v)| > LIMITE_CRIME
    ensures r.Ok? <==> !TodoEspaco(v) && |Strip(v)| <= LIMITE_CRIME
    ensures r.Ok? ==> r.value == Strip(v) && Aparado(r.value) && 0 < |r.value| <= LIMITE_CRIME
  {
    var limpo := Strip(v);
    if |limpo| == 0 then Err(CrimeVazio)
    else if |limpo| > LIMITE_CRIME then Err(CrimeMuitoLongo)
    else Ok(limpo)
  }

  /** `validar_cela`: positive, kept as given. */
  function ValidarCela(v: int): (r: Result<int, Erro>)
    ensures r.Ok? <==> v > 0
    ensures r.Ok? ==> r.value == v
    ensures r.Err? ==> r.error == CelaNaoPositiva
  {
    if v <= 0 then Err(CelaNaoPositiva) else Ok(v)
  }

  function ErrosDe<T>(r: Result<T, Erro>): (es: seq<Erro>)
    ensures |es| <= 1 && (es != [] <==> r.Err?)
    ensures r.Err? ==> es == [r.error]
  {
    if r.Ok? then [] else [r.error]
  }

  /** The error `e` is exactly what its own field's validator reports for its input. */
  predicate Reportado(e: Erro, id: Option<int>, nome: string, data: Option<Data>, crime: string, cela: int)
  {
    match CampoDe(e)
    case Id => ValidarId(id) == Err(e)
    case Nome => ValidarNome(nome) == Err(e)
    case DataNascimento => ValidarData(data) == Err(e)
    case Crime => ValidarCrime(crime) == Err(e)
    case Cela => ValidarCela(cela) == Err(e)
  }

  /** Errors listed in strictly increasing field order: at most one per field. */
  predicate EmOrdemDeCampo(es: seq<Erro>)
  {
    forall i, j | 0 <= i < j < |es| :: Posicao(CampoDe(es[i])) < Posicao(CampoDe(es[j]))
  }

  /** Appending the (at most one) error of field position `k` to errors of earlier
      fields keeps field order. */
  lemma AcrescentarErro<T>(es: seq<Erro>, r: Result<T, Erro>, k: nat)
    requires EmOrdemDeCampo(es) && forall x | x in es :: Posicao(CampoDe(x)) < k
    requires r.Err? ==> Posicao(CampoDe(r.error)) == k
    ensures EmOrdemDeCampo(es + ErrosDe(r))
    ensures forall x | x in es + ErrosDe(r) :: Posicao(CampoDe(x)) < k + 1
  {
    var novos := ErrosDe(r);
    if novos != [] {
      var t := es + novos;
      forall i, j | 0 <= i < j < |t| ensures Posicao(CampoDe(t[i])) < Posicao(CampoDe(t[j])) {
        if j == |es| { assert t[i] in es && t[j] in novos; }
      }
    }
  }

  /** The errors construction reports for the given raw field values: each field's
      validator error, if any, in field order. */
  function ErrosNovo(id: Option<int>, nome: string, data: Option<Data>, crime: string, cela: int)
    : (es: seq<Erro>)
    ensures es == [] <==> (ValidarId(id).Ok? && ValidarNome(nome).Ok? && ValidarData(data).Ok?
                           && ValidarCrime(crime).Ok? && ValidarCela(cela).Ok?)
  {
    ErrosDe(ValidarId(id)) + ErrosDe(ValidarNome(nome)) + ErrosDe(ValidarData(data))
    + ErrosDe(ValidarCrime(crime)) + ErrosDe(ValidarCela(cela))
  }

  /** Every reported error is the one its own field's validator gives. */
  lemma ErrosReportados(id: Option<int>, nome: string, data: Option<Data>, crime: string, cela: int)
    ensures forall e | e in ErrosNovo(id, nome, data, crime, cela) :: Reportado(e, id, nome, data, crime, cela)
  {
    var e1, e2, e3 := ErrosDe(ValidarId(id)), ErrosDe(ValidarNome(nome)), ErrosDe(ValidarData(data));
    var e4, e5 := ErrosDe(ValidarCrime(crime)), ErrosDe(ValidarCela(cela));
    forall e | e in e1 + e2 + e3 + e4 + e5 ensures Reportado(e, id, nome, data, crime, cela) {
      assert e in e1 || e in e2 || e in e3 || e in e4 || e in e5;
    }
  }

  /** Every failing field is reported. */
  lemma ErrosCompletos(id: Option<int>, nome: string, data: Option<Data>, crime: string, cela: int)
    ensures var es := ErrosNovo(id, nome, data, crime, cela);
            && (ValidarId(id).Err? ==> ValidarId(id).error in es)
            && (ValidarNome(nome).Err? ==> ValidarNome(nome).error in es)
            && (ValidarData(data).Err? ==> ValidarData(data).error in es)
            && (ValidarCrime(crime).Err? ==> ValidarCrime(crime).error in es)
            && (ValidarCela(cela).Err? ==> ValidarCela(cela).error in es)
  {
    var e1, e2, e3 := ErrosDe(ValidarId(id)), ErrosDe(ValidarNome(nome)), ErrosDe(ValidarData(data));
    var e4, e5 := ErrosDe(ValidarCrime(crime)), ErrosDe(ValidarCela(cela));
    var es := e1 + e2 + e3 + e4 + e5;
    assert forall e | e in e1 :: e in es;
    assert forall e | e in e2 :: e in es;
    assert forall e | e in e3 :: e in es;
    assert forall e | e in e4 :: e in es;
    assert forall e | e in e5 :: e in es;
  }

  /** Concatenating the errors of five results whose errors belong to the fields in
      declaration order keeps field order. */
  lemma ConcatenarEmOrdem<A, B, C, D, E>(
    r1: Result<A, Erro>, r2: Result<B, Erro>, r3: Result<C, Erro>, r4: Result<D, Erro>, r5: Result<E, Erro>)
    requires r1.Err? ==> CampoDe(r1.error) == Id
    requires r2.Err? ==> CampoDe(r2.error) == Nome
    requires r3.Err? ==> CampoDe(r3.error) == DataNascimento
    requires r4.Err? ==> CampoDe(r4.error) == Crime
    requires r5.Err? ==> CampoDe(r5.error) == Cela
    ensures EmOrdemDeCampo(ErrosDe(r1) + ErrosDe(r2) + ErrosDe(r3) + ErrosDe(r4) + ErrosDe(r5))
  {
    var e1, e2, e3, e4 := ErrosDe(r1), ErrosDe(r2), ErrosDe(r3), ErrosDe(r4);
    AcrescentarErro([], r1, 0);
    assert [] + e1 == e1;
    AcrescentarErro(e1, r2, 1);
    AcrescentarErro(e1 + e2, r3, 2);
    AcrescentarErro(e1 + e2 + e3, r4, 3);
    AcrescentarErro(e1 + e2 + e3 + e4, r5, 4);
  }

  /** At most one error per field, in the order the fields are declared. */
  lemma ErrosEmOrdem(id: Option<int>, nome: string, data: Option<Data>, crime: string, cela: int)
    ensures EmOrdemDeCampo(ErrosNovo(id, nome, data, crime, cela))
  {
    ConcatenarEmOrdem(ValidarId(id), ValidarNome(nome), ValidarData(data), ValidarCrime(crime), ValidarCela(cela));
  }

  /** Constructing a `Presidiario` from raw field values (`data` is `None` for a
      birth date given as text that does not parse). Each output field depends on its
      own input only; on failure every failing field is reported once, in field order. */
  function Novo(id: Option<int>, nome: string, data: Option<Data>, crime: string, cela: int)
    : (r: Result<Presidiario, seq<Erro>>)
    ensures r.Ok? <==> (ValidarId(id).Ok? && ValidarNome(nome).Ok? && ValidarData(data).Ok?
                        && ValidarCrime(crime).Ok? && ValidarCela(cela).Ok?)
    ensures r.Ok? ==> Valido(r.value)
    ensures r.Ok? ==> r.value == Presidiario(id, Strip(nome), data.value, Strip(crime), cela)
    ensures r.Err? ==> r.error != [] && EmOrdemDeCampo(r.error)
    ensures r.Err? ==> forall e | e in r.error :: Reportado(e, id, nome, data, crime, cela)
    ensures r.Err? ==> var es := r.error;
              && (ValidarId(id).Err? ==> ValidarId(id).error in es)
              && (ValidarNome(nome).Err? ==> ValidarNome(nome).error in es)
              && (ValidarData(data).Err? ==> ValidarData(data).error in es)
              && (ValidarCrime(crime).Err? ==> ValidarCrime(crime).error in es)
              && (ValidarCela(cela).Err? ==> ValidarCela(cela).error in es)
  {
    var es := ErrosNovo(id, nome, data, crime, cela);
    ErrosReportados(id, nome, data, crime, cela);
    ErrosCompletos(id, nome, data, crime, cela);
    ErrosEmOrdem(id, nome, data, crime, cela);
    if es == [] then
      Ok(Presidiario(ValidarId(id).value, ValidarNome(nome).value, ValidarData(data).value,
                     ValidarCrime(crime).value, ValidarCela(cela).value))
    else
      Err(es)
  }

  /** The entity invariant is exactly "validation accepts the entity and changes
      nothing": valid entities are the fixed points of construction. */
  lemma ValidoSseFixo(p: Presidiario)
    ensures Valido(p) <==>
            Novo(p.id, p.nome, Some(p.dataNascimento), p.crime, p.cela) == Ok(p)
  {
    if Valido(p) {
      StripDeAparado(p.nome);
      StripDeAparado(p.crime);
    }
  }

  /** Re-validating a constructed entity succeeds and yields the same entity. */
  lemma NovoIdempotente(id: Option<int>, nome: string, data: Option<Data>, crime: string, cela: int)
    requires Novo(id, nome, data, crime, cela).Ok?
    ensures var p := Novo(id, nome, data, crime, cela).value;
            Novo(p.id, p.nome, Some(p.dataNascimento), p.crime, p.cela) == Ok(p)
  {
    ValidoSseFixo(Novo(id, nome, data, crime, cela).value);
  }

  /** Re-validating an accepted name accepts it unchanged. */
  lemma RevalidarNome(v: string)
    requires ValidarNome(v).Ok?
    ensures ValidarNome(ValidarNome(v).value) == ValidarNome(v)
  {
    StripIdempotente(v);
  }

  /** Re-validating an accepted offence accepts it unchanged. */
  lemma RevalidarCrime(v: string)
    requires ValidarCrime(v).Ok?
    ensures ValidarCrime(ValidarCrime(v).value) == ValidarCrime(v)
  {
    StripIdempotente(v);
  }

  /** Surrounding whitespace neither counts toward the name's limit nor changes the
      stored name. */
  lemma NomeIgnoraEspacos(a: string, v: string, b: string)
    requires TodoEspaco(a) && TodoEspaco(b)
    ensures ValidarNome(a + v + b) == ValidarNome(v)
  {
    StripIgnoraEspacos(a, v, b);
  }

  /** Surrounding whitespace neither counts toward the offence's limit nor changes
      the stored offence. */
  lemma CrimeIgnoraEspacos(a: string, v: string, b: string)
    requires TodoEspaco(a) && TodoEspaco(b)
    ensures ValidarCrime(a + v + b) == ValidarCrime(v)
  {
    StripIgnoraEspacos(a, v, b);
  }
}
