/** The `presidiarios` table and the meaning of the six fixed SQL statements the
    repository runs against it, as functions from a table state to the statement's
    result and the next table state. */
module ProdutoSql {
  import opened Wrappers

  /** The range of an SQLite INTEGER: a signed 64-bit value. */
  const MIN_INT64 := -0x8000_0000_0000_0000
  const MAX_INT64 := 0x7FFF_FFFF_FFFF_FFFF

  /** The largest rowid SQLite hands out, 2^63 - 1; past it an AUTOINCREMENT insert fails. */
  const MAX_ROWID := MAX_INT64

  /** Whether a Python `int` can be bound to a statement parameter. Binding one outside
      the 64-bit range raises `OverflowError` before the statement runs; that exception
      is not an `sqlite3.Error`. */
  predicate Vinculavel(n: int)
  {
    MIN_INT64 <= n <= MAX_INT64
  }

  /** The four columns besides `id`, all `NOT NULL`, so every stored row has all four. */
  datatype Linha = Linha(nome: string, dataNascimento: string, crime: string, cela: int)

  /** A row as `SELECT id, nome, data_nascimento, crime, cela` returns it. */
  datatype Registro = Registro(id: int, nome: string, dataNascimento: string, crime: string, cela: int)

  /** The table: its rows by primary key, and the id `AUTOINCREMENT` hands out next
      (one more than the largest id ever handed out). */
  datatype Tabela = Tabela(linhas: map<int, Linha>, proximoId: int)

  const TABELA_VAZIA := Tabela(map[], 1)

  /** What SQLite keeps true of an `INTEGER PRIMARY KEY AUTOINCREMENT` table: every id
      is positive and below the next one to be handed out. */
  predicate TabelaValida(t: Tabela)
  {
    1 <= t.proximoId && forall id | id in t.linhas :: 1 <= id < t.proximoId
  }

  function RegistroDe(id: int, l: Linha): Registro
  {
    Registro(id, l.nome, l.dataNascimento, l.crime, l.cela)
  }

  /** The relation's contents as a set of selected rows. */
  function Registros(t: Tabela): set<Registro>
  {
    set id | id in t.linhas :: RegistroDe(id, t.linhas[id])
  }

  /** `CREATE TABLE IF NOT EXISTS`: a missing table is created empty; an existing
      one is left as it is. `db` is `None` when the table does not exist. */
  function CreateTable(db: Option<Tabela>): (t: Tabela)
    ensures db.Some? ==> t == db.value
    ensures db.None? ==> t.linhas == map[] && TabelaValida(t)
  {
    if db.Some? then db.value else TABELA_VAZIA
  }

  /** Running the creation again changes nothing. */
  lemma CreateTableIdempotente(db: Option<Tabela>)
    ensures CreateTable(Some(CreateTable(db))) == CreateTable(db)
  {
  }

  /** `INSERT INTO presidiarios (nome, data_nascimento, crime, cela)`: the caller
      supplies no id; the store assigns the next one, which no row, present or deleted,
      has ever had. Fails once the ids are used up. */
  function Insert(t: Tabela, l: Linha): (r: Option<(Tabela, int)>)
    requires TabelaValida(t)
    ensures r.None? <==> t.proximoId > MAX_ROWID
    ensures r.Some? ==>
      var (t', id) := r.value;
      && 0 < id <= MAX_ROWID && id !in t.linhas && id >= t.proximoId
      && (forall k | k in t.linhas :: k < id)
      && t'.linhas == t.linhas[id := l]
      && t'.proximoId > id && t'.proximoId > t.proximoId
      && TabelaValida(t')
  {
    if t.proximoId > MAX_ROWID then None
    else Some((Tabela(t.linhas[t.proximoId := l], t.proximoId + 1), t.proximoId))
  }

  /** `SELECT ... WHERE id = ?`: the rows whose id matches. Because `id` is the
      primary key this is at most one row, the one stored under that key. */
  function SelectPorId(t: Tabela, id: int): (r: set<Registro>)
    ensures id !in t.linhas <==> r == {}
    ensures id in t.linhas ==> r == {RegistroDe(id, t.linhas[id])}
    ensures |r| <= 1
  {
    var r := set x | x in Registros(t) && x.id == id;
    assert id in t.linhas ==> RegistroDe(id, t.linhas[id]) in r;
    assert id in t.linhas ==> r == {RegistroDe(id, t.linhas[id])};
    r
  }

  /** `SELECT ... FROM presidiarios`, with no `WHERE` and no `ORDER BY`: a result is
      any listing of every row exactly once, in any order. */
  predicate ResultadoSelectTodos(t: Tabela, rs: seq<Registro>)
  {
    && |rs| == |t.linhas|
    && (forall i | 0 <= i < |rs| :: rs[i].id in t.linhas && rs[i] == RegistroDe(rs[i].id, t.linhas[rs[i].id]))
    && (forall i, j | 0 <= i < j < |rs| :: rs[i].id != rs[j].id)
  }

  /** The stored ids below `limite`. */
  function IdsAbaixo(t: Tabela, limite: int): set<int>
  {
    set k | k in t.linhas && k < limite
  }

  /** Running `SELECT ... FROM presidiarios`: a scan of the table. The statement fixes
      no order; this scan yields the rows by increasing id, which is one of the
      orders the result allows. */
  method SelectTodos(t: Tabela) returns (rs: seq<Registro>)
    requires TabelaValida(t)
    ensures ResultadoSelectTodos(t, rs)
  {
    rs := [];
    var id := 1;
    assert IdsAbaixo(t, 1) == {};
    while id < t.proximoId
      invariant 1 <= id <= t.proximoId
      invariant |rs| == |IdsAbaixo(t, id)|
      invariant forall i | 0 <= i < |rs| ::
                  rs[i].id in t.linhas && rs[i] == RegistroDe(rs[i].id, t.linhas[rs[i].id])
                  && rs[i].id < id
      invariant forall i, j | 0 <= i < j < |rs| :: rs[i].id != rs[j].id
      decreases t.proximoId - id
    {
      if id in t.linhas {
        assert IdsAbaixo(t, id + 1) == IdsAbaixo(t, id) + {id};
        rs := rs + [RegistroDe(id, t.linhas[id])];
      } else {
        assert IdsAbaixo(t, id + 1) == IdsAbaixo(t, id);
      }
      id := id + 1;
    }
    assert IdsAbaixo(t, id) == t.linhas.Keys;
  }

  /** A listing of every row once mentions every stored id. */
  lemma {:induction false} SelectTodosCobre(t: Tabela, rs: seq<Registro>)
    requires ResultadoSelectTodos(t, rs)
    ensures forall id | id in t.linhas :: exists i | 0 <= i < |rs| :: rs[i].id == id
  {
    var ids := set i | 0 <= i < |rs| :: rs[i].id;
    assert ids <= t.linhas.Keys by {
      forall i | 0 <= i < |rs| ensures rs[i].id in t.linhas { }
    }
    TamanhoIds(rs, |rs|);
    SubconjuntoDoMesmoTamanho(ids, t.linhas.Keys);
    forall id | id in t.linhas ensures exists i | 0 <= i < |rs| :: rs[i].id == id {
      assert id in ids;
    }
  }

  /** Distinct ids in the first `n` rows of a listing give `n` distinct ids. */
  lemma {:induction false} TamanhoIds(rs: seq<Registro>, n: nat)
    requires n <= |rs|
    requires forall i, j | 0 <= i < j < |rs| :: rs[i].id != rs[j].id
    ensures |set i | 0 <= i < n :: rs[i].id| == n
  {
    if n > 0 {
      TamanhoIds(rs, n - 1);
      var antes := set i | 0 <= i < n - 1 :: rs[i].id;
      assert (set i | 0 <= i < n :: rs[i].id) == antes + {rs[n - 1].id};
      assert rs[n - 1].id !in antes;
    }
  }

  lemma SubconjuntoDoMesmoTamanho(a: set<int>, b: set<int>)
    requires a <= b && |a| == |b|
    ensures a == b
  {
    assert |b - a| == |b| - |a|;
  }

  /** `UPDATE ... SET nome, data_nascimento, crime, cela ... WHERE id = ?`: the four
      columns of the matching row are replaced, its id stays, other rows stay; the row
      count is the number of matching rows, at most one. */
  function Update(t: Tabela, id: int, l: Linha): (r: (Tabela, nat))
    ensures r.1 <= 1 && (r.1 == 1 <==> id in t.linhas)
    ensures r.0.proximoId == t.proximoId
    ensures r.0.linhas == if id in t.linhas then t.linhas[id := l] else t.linhas
  {
    var atingidas := set k | k in t.linhas && k == id;
    assert id in t.linhas ==> atingidas == {id};
    assert id !in t.linhas ==> atingidas == {};
    var linhas := map k | k in t.linhas :: if k in atingidas then l else t.linhas[k];
    assert id in t.linhas ==> linhas == t.linhas[id := l];
    assert id !in t.linhas ==> linhas == t.linhas;
    (Tabela(linhas, t.proximoId), |atingidas|)
  }

  /** `DELETE ... WHERE id = ?`: only the matching row goes, at most one; the next
      id is untouched, so a deleted id is never handed out again. */
  function Delete(t: Tabela, id: int): (r: (Tabela, nat))
    ensures r.1 <= 1 && (r.1 == 1 <==> id in t.linhas)
    ensures r.0.proximoId == t.proximoId
    ensures r.0.linhas == t.linhas - {id} && id !in r.0.linhas
  {
    var atingidas := set k | k in t.linhas && k == id;
    assert id in t.linhas ==> atingidas == {id};
    assert id !in t.linhas ==> atingidas == {};
    var linhas := map k | k in t.linhas && k !in atingidas :: t.linhas[k];
    assert linhas == t.linhas - {id};
    (Tabela(linhas, t.proximoId), |atingidas|)
  }

  /** A statement that changes the table. */
  datatype Comando = Inserir(linha: Linha) | Atualizar(id: int, nova: Linha) | Excluir(alvo: int)

  /** Runs statements in order; yields the final table and the ids the successful
      inserts handed out, in order. */
  function Executar(t: Tabela, cs: seq<Comando>): (r: (Tabela, seq<int>))
    requires TabelaValida(t)
    ensures TabelaValida(r.0) && r.0.proximoId >= t.proximoId
    ensures forall i | 0 <= i < |r.1| :: t.proximoId <= r.1[i] < r.0.proximoId
    decreases |cs|
  {
    if cs == [] then (t, [])
    else
      match cs[0]
      case Inserir(l) =>
        var ins := Insert(t, l);
        if ins.None? then Executar(t, cs[1..])
        else
          var resto := Executar(ins.value.0, cs[1..]);
          (resto.0, [ins.value.1] + resto.1)
      case Atualizar(id, l) => Executar(Update(t, id, l).0, cs[1..])
      case Excluir(id) => Executar(Delete(t, id).0, cs[1..])
  }

  predicate Crescente(ids: seq<int>)
  {
    forall i, j | 0 <= i < j < |ids| :: ids[i] < ids[j]
  }

  /** Putting a smaller id in front of increasing ids keeps them increasing. */
  lemma PrefixarCrescente(id: int, resto: seq<int>)
    requires Crescente(resto) && forall i | 0 <= i < |resto| :: id < resto[i]
    ensures Crescente([id] + resto)
  {
    var ids := [id] + resto;
    forall i, j | 0 <= i < j < |ids| ensures ids[i] < ids[j] {
      assert ids[j] == resto[j - 1];
      if i > 0 { assert ids[i] == resto[i - 1]; }
    }
  }

  /** `AUTOINCREMENT` never reuses an id: across any run of inserts, updates and
      deletes, the ids handed out strictly increase, and none of them is an id the
      table held at the start (even one deleted along the way). */
  lemma {:induction false} IdsNuncaReutilizados(t: Tabela, cs: seq<Comando>)
    requires TabelaValida(t)
    ensures Crescente(Executar(t, cs).1)
    ensures forall id | id in Executar(t, cs).1 :: id !in t.linhas
    decreases |cs|
  {
    if cs != [] {
      match cs[0]
      case Inserir(l) =>
        var ins := Insert(t, l);
        if ins.Some? {
          var t', id := ins.value.0, ins.value.1;
          IdsNuncaReutilizados(t', cs[1..]);
          var resto := Executar(t', cs[1..]).1;
          assert Executar(t, cs).1 == [id] + resto;
          assert forall i | 0 <= i < |resto| :: id < t'.proximoId <= resto[i];
          PrefixarCrescente(id, resto);
        } else {
          assert Executar(t, cs) == Executar(t, cs[1..]);
          IdsNuncaReutilizados(t, cs[1..]);
        }
      case Atualizar(id, l) =>
        assert Executar(t, cs) == Executar(Update(t, id, l).0, cs[1..]);
        IdsNuncaReutilizados(Update(t, id, l).0, cs[1..]);
      case Excluir(id) =>
        assert Executar(t, cs) == Executar(Delete(t, id).0, cs[1..]);
        IdsNuncaReutilizados(Delete(t, id).0, cs[1..]);
    }
  }
}
