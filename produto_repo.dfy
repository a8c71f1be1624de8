/** `PresidiarioRepo`: the CRUD repository over the `presidiarios` table. Each method
    is one statement against the database; a storage error (`sqlite3.Error`, here the
    parameter `falha` for an error raised while opening the connection or preparing the
    statement, or a table that does not exist) leaves the table as it was and degrades
    to `None`, `[]` or `false`. An integer parameter outside SQLite's 64-bit range
    raises `OverflowError` when it is bound, which those handlers do not catch: the
    methods that bind integers return `Err(EstouroInteiro)` for that escaping
    exception, and nothing is written. */
module ProdutoRepo {
  import opened Wrappers
  import opened Datas
  import opened Produto
  import opened ProdutoSql

  /** The INSERT / UPDATE parameters for an entity: its fields, the birth date written
      as `str(date)`. */
  function ParaLinha(p: Presidiario): (l: Linha)
    requires DataValida(p.dataNascimento)
    ensures ParseData(l.dataNascimento) == Some(p.dataNascimento)
  {
    ParseDeFormatar(p.dataNascimento);
    Linha(p.nome, FormatarData(p.dataNascimento), p.crime, p.cela)
  }

  /** Building the entity back from a selected row, by running construction (and so
      every validator) on the columns, with the date text parsed. */
  function Reconstruir(reg: Registro): (r: Result<Presidiario, seq<Erro>>)
    ensures r.Ok? ==> Valido(r.value) && r.value.id == Some(reg.id)
    ensures ParseData(reg.dataNascimento).None? ==> r.Err? && DataInvalida in r.error
  {
    Novo(Some(reg.id), reg.nome, ParseData(reg.dataNascimento), reg.crime, reg.cela)
  }

  /** The entity a stored row stands for, when its date text parses. */
  function EntidadeDe(id: int, l: Linha): Presidiario
    requires ParseData(l.dataNascimento).Some?
  {
    Presidiario(Some(id), l.nome, ParseData(l.dataNascimento).value, l.crime, l.cela)
  }

  /** A stored row that a valid entity could have written under this id. */
  predicate LinhaValida(id: int, l: Linha)
  {
    ParseData(l.dataNascimento).Some? && Valido(EntidadeDe(id, l))
  }

  /** The row written for a valid entity is valid under any positive id, and stands
      for that entity with that id. */
  lemma LinhaDeValido(p: Presidiario, id: int)
    requires Valido(p) && id > 0
    ensures LinhaValida(id, ParaLinha(p))
    ensures EntidadeDe(id, ParaLinha(p)) == p.(id := Some(id))
  {
    ParseDeFormatar(p.dataNascimento);
  }

  /** Writing an entity and reading it back under the id the store assigned gives the
      same entity with that id. */
  lemma IdaEVolta(p: Presidiario, id: int)
    requires Valido(p) && id > 0
    ensures Reconstruir(RegistroDe(id, ParaLinha(p))) == Ok(p.(id := Some(id)))
  {
    LinhaDeValido(p, id);
    ReconstruirValida(id, ParaLinha(p));
  }

  /** Every valid row rebuilds, to the entity it stands for, and that entity writes
      back exactly the stored row. */
  lemma ReconstruirValida(id: int, l: Linha)
    requires LinhaValida(id, l)
    ensures Reconstruir(RegistroDe(id, l)) == Ok(EntidadeDe(id, l))
    ensures ParaLinha(EntidadeDe(id, l)) == l
  {
    ValidoSseFixo(EntidadeDe(id, l));
    FormatarDeParse(l.dataNascimento);
  }

  /** Every stored row was written from a valid entity under its id. */
  predicate LinhasValidas(linhas: map<int, Linha>)
  {
    forall id | id in linhas :: LinhaValida(id, linhas[id])
  }

  /** Writing a valid row keeps every row valid. */
  lemma GravarPreservaValidas(linhas: map<int, Linha>, id: int, l: Linha)
    requires LinhasValidas(linhas) && LinhaValida(id, l)
    ensures LinhasValidas(linhas[id := l])
  {
  }

  /** Removing a row keeps every row valid. */
  lemma RemoverPreservaValidas(linhas: map<int, Linha>, id: int)
    requires LinhasValidas(linhas)
    ensures LinhasValidas(linhas - {id})
  {
  }

  /** The list comprehension of `obter_todos`: each selected row rebuilt, in the
      order the rows came. */
  method ReconstruirTodos(t: Tabela, rs: seq<Registro>) returns (ps: seq<Presidiario>)
    requires LinhasValidas(t.linhas)
    requires forall i | 0 <= i < |rs| :: rs[i].id in t.linhas && rs[i] == RegistroDe(rs[i].id, t.linhas[rs[i].id])
    ensures |ps| == |rs|
    ensures forall i | 0 <= i < |ps| :: ps[i].id == Some(rs[i].id)
              && Valido(ps[i]) && ParaLinha(ps[i]) == t.linhas[rs[i].id]
  {
    ps := [];
    for n := 0 to |rs|
      invariant |ps| == n
      invariant forall i | 0 <= i < n :: ps[i].id == Some(rs[i].id)
                  && Valido(ps[i]) && ParaLinha(ps[i]) == t.linhas[rs[i].id]
    {
      var r := rs[n];
      ReconstruirValida(r.id, t.linhas[r.id]);
      ps := ps + [Reconstruir(r).value];
    }
  }

  /** What `obter_todos` promises of its result for table `t`: one valid entity per
      stored row, carrying that row's id and fields, each row exactly once. */
  predicate ListagemDe(t: Tabela, ps: seq<Presidiario>)
  {
    && |ps| == |t.linhas|
    && (forall i | 0 <= i < |ps| :: ps[i].id.Some? && ps[i].id.value in t.linhas
          && Valido(ps[i]) && ParaLinha(ps[i]) == t.linhas[ps[i].id.value])
    && (forall i, j | 0 <= i < j < |ps| :: ps[i].id != ps[j].id)
    && (forall id | id in t.linhas :: exists i | 0 <= i < |ps| :: ps[i].id == Some(id))
  }

  /** Rebuilding every row of a complete, unordered listing lists every stored entity. */
  lemma ListagemCompleta(t: Tabela, rs: seq<Registro>, ps: seq<Presidiario>)
    requires ResultadoSelectTodos(t, rs) && |ps| == |rs|
    requires forall i | 0 <= i < |ps| :: ps[i].id == Some(rs[i].id)
               && Valido(ps[i]) && ParaLinha(ps[i]) == t.linhas[rs[i].id]
    ensures ListagemDe(t, ps)
  {
    SelectTodosCobre(t, rs);
    forall id | id in t.linhas ensures exists i | 0 <= i < |ps| :: ps[i].id == Some(id) {
      var i :| 0 <= i < |rs| && rs[i].id == id;
      assert ps[i].id == Some(id);
    }
  }

  /** An exception that escapes the repository's handlers. */
  datatype Excecao = EstouroInteiro

  class PresidiarioRepo {
    /** Whether the `presidiarios` table exists in the database file. */
    var tabelaExiste: bool
    var linhas: map<int, Linha>
    /** Stands for `AUTOINCREMENT`'s record of the largest id handed out, plus one. */
    var proximoId: int

    function Estado(): Tabela
      reads this
    {
      Tabela(linhas, proximoId)
    }

    /** The table, or `None` when it does not exist. */
    function Banco(): Option<Tabela>
      reads this
    {
      if tabelaExiste then Some(Estado()) else None
    }

    /** A missing table holds nothing; the table keeps SQLite's id discipline; every
        row was written from a valid entity. */
    ghost predicate Valid()
      reads this
    {
      && TabelaValida(Estado())
      && (!tabelaExiste ==> linhas == map[] && proximoId == 1)
      && LinhasValidas(linhas)
    }

    /** `__init__`: opens the repository on the database as earlier runs left it
        (`db` is `None` when there is no table yet) and runs `_criar_tabela`. */
    constructor (db: Option<Tabela>, falha: bool)
      requires db.Some? ==> TabelaValida(db.value)
      requires db.Some? ==> LinhasValidas(db.value.linhas)
      ensures Valid()
      ensures Banco() == if falha then db else Some(CreateTable(db))
    {
      if db.Some? {
        tabelaExiste, linhas, proximoId := true, db.value.linhas, db.value.proximoId;
      } else {
        tabelaExiste, linhas, proximoId := false, map[], 1;
      }
      new;
      CriarTabela(falha);
    }

    /** `_criar_tabela`: `CREATE TABLE IF NOT EXISTS`; on a storage error nothing
        changes. */
    method CriarTabela(falha: bool)
      requires Valid()
      modifies this
      ensures Valid()
      ensures Banco() == if falha then old(Banco()) else Some(CreateTable(old(Banco())))
      ensures old(tabelaExiste) ==> linhas == old(linhas) && proximoId == old(proximoId)
    {
      if !falha {
        var t := CreateTable(Banco());
        tabelaExiste, linhas, proximoId := true, t.linhas, t.proximoId;
      }
    }

    /** `adicionar`: inserts the entity's four fields (its own id, if any, is not
        used) and returns the id the store assigned, `None` on a storage error, or
        the escaping `OverflowError` when `cela` does not fit a 64-bit INTEGER. */
    method Adicionar(p: Presidiario, falha: bool) returns (r: Result<Option<int>, Excecao>)
      requires Valid() && Valido(p)
      modifies this
      ensures Valid() && tabelaExiste == old(tabelaExiste)
      ensures r.Err? <==> !falha && old(tabelaExiste) && !Vinculavel(p.cela)
      ensures r == Ok(None) <==>
                falha || !old(tabelaExiste) || (Vinculavel(p.cela) && old(proximoId) > MAX_ROWID)
      ensures !(r.Ok? && r.value.Some?) ==> linhas == old(linhas) && proximoId == old(proximoId)
      ensures r.Ok? && r.value.Some? ==>
                Insert(old(Estado()), ParaLinha(p)) == Some((Estado(), r.value.value))
      ensures r.Ok? && r.value.Some? ==>
                r.value.value > 0 && r.value.value !in old(linhas)
                && linhas == old(linhas)[r.value.value := ParaLinha(p)]
    {
      if falha || !tabelaExiste {
        return Ok(None);
      }
      if !Vinculavel(p.cela) {
        return Err(EstouroInteiro);
      }
      var ins := Insert(Estado(), ParaLinha(p));
      if ins.None? {
        return Ok(None);
      }
      var (t, novo) := ins.value;
      LinhaDeValido(p, novo);
      GravarPreservaValidas(linhas, novo, ParaLinha(p));
      linhas, proximoId := t.linhas, t.proximoId;
      r := Ok(Some(novo));
    }

    /** `obter`: the entity stored under `id`, `None` when there is no such row or on
        a storage error, or the escaping `OverflowError` for an id outside 64 bits. */
    method Obter(id: int, falha: bool) returns (r: Result<Option<Presidiario>, Excecao>)
      requires Valid()
      ensures r.Err? <==> !falha && tabelaExiste && !Vinculavel(id)
      ensures r.Ok? && r.value.Some? <==> !falha && tabelaExiste && Vinculavel(id) && id in linhas
      ensures r.Ok? && r.value.Some? ==>
                r.value.value.id == Some(id) && Valido(r.value.value)
                && ParaLinha(r.value.value) == linhas[id]
    {
      if falha || !tabelaExiste {
        return Ok(None);
      }
      if !Vinculavel(id) {
        return Err(EstouroInteiro);
      }
      var encontrados := SelectPorId(Estado(), id);
      if encontrados == {} {
        return Ok(None);
      }
      var reg :| reg in encontrados;
      ReconstruirValida(id, linhas[id]);
      r := Ok(Some(Reconstruir(reg).value));
    }

    /** `obter_todos`: one entity per stored row, in no particular order; `[]` on a
        storage error. */
    method ObterTodos(falha: bool) returns (ps: seq<Presidiario>)
      requires Valid()
      ensures falha || !tabelaExiste ==> ps == []
      ensures !falha && tabelaExiste ==> ListagemDe(Estado(), ps)
    {
      if falha || !tabelaExiste {
        return [];
      }
      var rs := SelectTodos(Estado());
      ps := ReconstruirTodos(Estado(), rs);
      ListagemCompleta(Estado(), rs, ps);
    }

    /** `atualizar`: without an id, `false` and no write; otherwise the row with that
        id gets the entity's four fields, and the result says whether such a row
        existed. `cela` or the id outside 64 bits raises the escaping `OverflowError`. */
    method Atualizar(p: Presidiario, falha: bool) returns (r: Result<bool, Excecao>)
      requires Valid() && Valido(p)
      modifies this
      ensures Valid() && tabelaExiste == old(tabelaExiste) && proximoId == old(proximoId)
      ensures r.Err? <==>
                p.id.Some? && !falha && tabelaExiste
                && !(Vinculavel(p.cela) && Vinculavel(p.id.value))
      ensures r == Ok(true) <==>
                p.id.Some? && !falha && tabelaExiste
                && Vinculavel(p.cela) && Vinculavel(p.id.value) && p.id.value in old(linhas)
      ensures r != Ok(true) ==> linhas == old(linhas)
      ensures r == Ok(true) ==> linhas == old(linhas)[p.id.value := ParaLinha(p)]
      ensures p.id.Some? && !falha && tabelaExiste && r.Ok? ==>
                Update(old(Estado()), p.id.value, ParaLinha(p)) == (Estado(), if r.value then 1 else 0)
    {
      if p.id.None? {
        return Ok(false);
      }
      if falha || !tabelaExiste {
        return Ok(false);
      }
      var id := p.id.value;
      if !(Vinculavel(p.cela) && Vinculavel(id)) {
        return Err(EstouroInteiro);
      }
      var (t, afetadas) := Update(Estado(), id, ParaLinha(p));
      LinhaDeValido(p, id);
      assert p.(id := Some(id)) == p;
      GravarPreservaValidas(linhas, id, ParaLinha(p));
      linhas := t.linhas;
      r := Ok(afetadas > 0);
    }

    /** `excluir`: removes the row with that id, if any; the result says whether
        one existed. An id outside 64 bits raises the escaping `OverflowError`. */
    method Excluir(id: int, falha: bool) returns (r: Result<bool, Excecao>)
      requires Valid()
      modifies this
      ensures Valid() && tabelaExiste == old(tabelaExiste) && proximoId == old(proximoId)
      ensures r.Err? <==> !falha && tabelaExiste && !Vinculavel(id)
      ensures r == Ok(true) <==> !falha && tabelaExiste && Vinculavel(id) && id in old(linhas)
      ensures linhas == if r == Ok(true) then old(linhas) - {id} else old(linhas)
      ensures !falha && tabelaExiste && r.Ok? ==>
                Delete(old(Estado()), id) == (Estado(), if r.value then 1 else 0)
    {
      if falha || !tabelaExiste {
        return Ok(false);
      }
      if !Vinculavel(id) {
        return Err(EstouroInteiro);
      }
      var (t, afetadas) := Delete(Estado(), id);
      RemoverPreservaValidas(linhas, id);
      linhas := t.linhas;
      r := Ok(afetadas > 0);
    }
  }
}
