# Prisoner records: entity validation and the `presidiarios` repository

This project models the core of a console tool that keeps prisoner records
(`Presidiario`) in a single SQLite table. It covers three parts:

- **The entity** (`Produto`). It has five fields: `id`, `nome`, `data_nascimento`,
  `crime` and `cela`. Each field has its own validator:
  - the id is absent or positive;
  - the name and the offence are stripped of surrounding whitespace, must not be
    empty, and are at most 100 and 200 characters;
  - the cell number is positive.

  Construction runs every validator. It yields an entity only when all of them pass.
  Otherwise it reports every failing field once, in declaration order, which is what
  pydantic's aggregated `ValidationError` does.
- **The SQL statements** (`ProdutoSql`). These are the six fixed statements over the
  `presidiarios` table: `CREATE TABLE IF NOT EXISTS`, `INSERT`, `SELECT` by id,
  `SELECT` of all rows, `UPDATE` by id and `DELETE` by id. Each one is a function
  from a table state to its result and the next state.
  - The table is a map from primary key to row, plus the next id that
    `AUTOINCREMENT` hands out.
  - `SELECT` of all rows is a scanning method that lists every row exactly once.
  - A lemma over any sequence of writes proves that ids are never reused.
- **The repository** (`ProdutoRepo.PresidiarioRepo`). This is a class holding the
  table's state. Its methods are `_criar_tabela`, `adicionar`, `obter`,
  `obter_todos`, `atualizar` and `excluir`.
  - Every method states its result and the new table exactly.
  - A storage error (`sqlite3.Error`) is the parameter `falha`. So is a table that
    does not exist. A storage error leaves the table unchanged, and the method
    returns `None`, `[]` or `false`.
  - An integer parameter outside SQLite's 64-bit range raises `OverflowError` when
    it is bound. That exception is not an `sqlite3.Error`, so it escapes; the
    methods return it as `Err(EstouroInteiro)` and write nothing.
  - Reads rebuild entities by running construction on the stored columns, as
    `Presidiario(id=row[0], …)` does.
  - The class invariant says every stored row was written from a valid entity.
    This is why those rebuilds always succeed.

Two supporting modules complete the model:

- `Texto` models Python's `str.strip()`, with `str.isspace()` written out as its
  character set. It proves that the result is exactly the input without its
  whitespace prefix and suffix, and that stripping is idempotent.
- `Datas` models `str(date)`, which writes the extended calendar-date format
  `YYYY-MM-DD` of ISO 8601:2004, section 4.1.2.2. It also models the parser that
  reads that text back. The round trip is proved in both directions.

## Model

| member | source | states |
|---|---|---|
| Texto.Strip | sistema_carcerario/produtos/produto.py:20 | `v.strip()`: the result has no surrounding whitespace. It is the slice of the input after its whitespace prefix, and that prefix and the rest of the input after the result are all whitespace. It is empty exactly when the input is all whitespace. |
| Texto.StripCaracterizado | sistema_carcerario/produtos/produto.py:20 | Whitespace, then a trimmed text, then whitespace strips to exactly that trimmed text. This fixes the result uniquely. |
| Texto.StripIdempotente | sistema_carcerario/produtos/produto.py:20 | Stripping twice is the same as stripping once. |
| Texto.StripDeAparado | sistema_carcerario/produtos/produto.py:20-25 | A text without surrounding whitespace strips to itself. |
| Texto.StripIgnoraEspacos | sistema_carcerario/produtos/produto.py:20 | Adding whitespace around a text does not change what it strips to. |
| Texto.InicioTextoUnico | sistema_carcerario/produtos/produto.py:20 | The index where the left strip stops is the only index whose prefix is all whitespace and that stops at a non-whitespace character or the end. |
| Texto.FimTextoUnico | sistema_carcerario/produtos/produto.py:20 | Likewise for the index where the right strip stops. |
| Datas.DiasNoMes | sistema_carcerario/produtos/produto.py:8 | Months have 28 to 31 days, and 29 exactly for February of a Gregorian leap year. |
| Datas.FormatarData | sistema_carcerario/produtos/produto_repo.py:33 | `str(date)` is ten characters, with dashes at positions 4 and 7. |
| Datas.ParseData | sistema_carcerario/produtos/produto_repo.py:50 | Parsing stored date text yields only dates that exist. |
| Datas.ValorDeDecimal | sistema_carcerario/produtos/produto_repo.py:33 | Reading a zero-padded decimal gives back the number, when the number fits the width. |
| Datas.DecimalDeValor | sistema_carcerario/produtos/produto_repo.py:50 | A digit string is the zero-padded decimal of its value. |
| Datas.ParseDeFormatar | sistema_carcerario/produtos/produto_repo.py:33-50 | A date written with `str(date)` parses back as the same date. |
| Datas.FormatarDeParse | sistema_carcerario/produtos/produto_repo.py:33-50 | Every text the parser accepts is exactly what `str(date)` writes for that date. |
| Produto.ValidarId | sistema_carcerario/produtos/produto.py:12-16 | Accepted exactly when absent or positive. An accepted id is returned unchanged; a rejected one gives the id error. |
| Produto.Valido | sistema_carcerario/produtos/produto.py:5-40 | The entity invariant: the id is absent or positive, the name and offence are trimmed, non-empty and within 100 and 200 characters, the date exists, and the cell is positive. `ValidoSseFixo` proves these are exactly the entities construction returns unchanged. |
| Produto.ValidarNome | sistema_carcerario/produtos/produto.py:18-25 | Accepted exactly when the input is not all whitespace and its stripped length is at most 100, so exactly 100 is accepted. The "empty" error exactly when the input is all whitespace. The "too long" error exactly when the stripped length exceeds 100. An accepted name is the stripped input, which is non-empty, at most 100 characters and trimmed. |
| Produto.ValidarData | sistema_carcerario/produtos/produto.py:8 | Accepted exactly when the date is given and exists; the value is kept as given. |
| Produto.ValidarCrime | sistema_carcerario/produtos/produto.py:27-34 | Accepted exactly when the input is not all whitespace and its stripped length is at most 200. The "empty" error exactly when the input is all whitespace, the "too long" error exactly when the stripped length exceeds 200. An accepted offence is the stripped input, trimmed and within the limit. |
| Produto.ValidarCela | sistema_carcerario/produtos/produto.py:36-40 | Accepted exactly when positive; the value is returned unchanged. |
| Produto.ErrosNovo | sistema_carcerario/produtos/produto.py:5-40 | There are no errors exactly when every field's validator accepts. |
| Produto.ErrosReportados | sistema_carcerario/produtos/produto.py:5-40 | Every reported error is exactly what its own field's validator gives for that field's input, so there are no cross-field rules. |
| Produto.ErrosCompletos | sistema_carcerario/produtos/produto.py:5-40 | Every field whose validator fails has its error reported. |
| Produto.ErrosEmOrdem | sistema_carcerario/produtos/produto.py:5-40 | Errors come at most one per field, in the order the fields are declared. |
| Produto.Novo | sistema_carcerario/produtos/produto.py:5-40 | Construction succeeds exactly when every validator accepts. The entity then holds the validated values (stripped name and offence) and satisfies the entity invariant. Otherwise the error list is non-empty, in field order, complete, and each entry is its field's own error. |
| Produto.ValidoSseFixo | sistema_carcerario/produtos/produto.py:5-40 | An entity satisfies the invariant exactly when constructing it from its own fields gives it back unchanged. |
| Produto.NovoIdempotente | sistema_carcerario/produtos/produto.py:20-34 | Re-validating a constructed entity succeeds and changes nothing. |
| Produto.RevalidarNome | sistema_carcerario/produtos/produto.py:18-25 | An accepted name validates again to itself. |
| Produto.RevalidarCrime | sistema_carcerario/produtos/produto.py:27-34 | An accepted offence validates again to itself. |
| Produto.NomeIgnoraEspacos | sistema_carcerario/produtos/produto.py:20-25 | Surrounding whitespace neither changes the stored name nor counts toward the limit of 100. |
| Produto.CrimeIgnoraEspacos | sistema_carcerario/produtos/produto.py:29-34 | Surrounding whitespace neither changes the stored offence nor counts toward the limit of 200. |
| ProdutoSql.CreateTable | sistema_carcerario/produtos/produto_sql.py:2-10 | A missing table is created empty and valid; an existing table is left exactly as it is. |
| ProdutoSql.CreateTableIdempotente | sistema_carcerario/produtos/produto_sql.py:3 | Running the creation again changes nothing. |
| ProdutoSql.Insert | sistema_carcerario/produtos/produto_sql.py:4-16 | Fails exactly when the ids up to 2^63-1 are used up. Otherwise the store picks the id, not the caller. That id is positive, absent from the table, larger than every stored id and at least the next id, so no id handed out or deleted before is reused. The new table is the old one plus that row, its next id grows, and it stays valid. |
| ProdutoSql.SelectPorId | sistema_carcerario/produtos/produto_sql.py:19-23 | Empty exactly when no row has the id. Otherwise it is the single stored row with that id, with the columns in `id, nome, data_nascimento, crime, cela` order. |
| ProdutoSql.SelectTodos | sistema_carcerario/produtos/produto_sql.py:26-29 | Lists every stored row: as many entries as rows, each equal to the stored row under its id, with no id twice. |
| ProdutoSql.SelectTodosCobre | sistema_carcerario/produtos/produto_sql.py:26-29 | Any such listing contains every stored id. |
| ProdutoSql.Update | sistema_carcerario/produtos/produto_sql.py:32-36 | The row count is at most 1, and 1 exactly when the id is stored. That row's four columns are replaced and its id is kept. Every other row and the next id are unchanged. |
| ProdutoSql.Delete | sistema_carcerario/produtos/produto_sql.py:39-42 | Exactly the row with that id is removed. The row count is 1 exactly when that row existed. The next id is unchanged. |
| ProdutoSql.Executar | sistema_carcerario/produtos/produto_sql.py:4 | Any run of inserts, updates and deletes keeps the table valid and never lowers the next id. |
| ProdutoSql.IdsNuncaReutilizados | sistema_carcerario/produtos/produto_sql.py:4 | Across any run of writes, the ids inserts hand out strictly increase, and none is an id the table held before, even one deleted along the way. |
| ProdutoRepo.ParaLinha | sistema_carcerario/produtos/produto_repo.py:32-33 | The INSERT and UPDATE parameters: the entity's four fields, with the birth date written as `str(date)`, text that parses back to the same date. |
| ProdutoRepo.Reconstruir | sistema_carcerario/produtos/produto_repo.py:50 | `Presidiario(id=row[0], ...)` runs construction on the selected columns. A success is a valid entity carrying the row's id. Date text that does not parse fails with the date error. |
| ProdutoRepo.LinhaDeValido | sistema_carcerario/produtos/produto_repo.py:33 | The row written for a valid entity is a valid stored row under any positive id, and stands for that entity with that id. |
| ProdutoRepo.IdaEVolta | sistema_carcerario/produtos/produto_repo.py:32-50 | Writing a valid entity and rebuilding the row stored under the assigned id gives back the same entity with that id. |
| ProdutoRepo.ReconstruirValida | sistema_carcerario/produtos/produto_repo.py:50-66 | Every valid stored row rebuilds successfully, and the entity it gives writes back exactly that row. |
| ProdutoRepo.ReconstruirTodos | sistema_carcerario/produtos/produto_repo.py:66 | The list comprehension rebuilds one valid entity per selected row, in the same order, with the row's id and columns. |
| ProdutoRepo.ListagemCompleta | sistema_carcerario/produtos/produto_repo.py:64-66 | Rebuilding a complete listing yields one entity per stored row, each row exactly once. |
| ProdutoRepo.PresidiarioRepo.constructor | sistema_carcerario/produtos/produto_repo.py:11-13 | Opens on the existing database and runs `_criar_tabela`. The table is then the created-or-kept table, or unchanged after a storage error. |
| ProdutoRepo.PresidiarioRepo.CriarTabela | sistema_carcerario/produtos/produto_repo.py:15-22 | `CREATE TABLE IF NOT EXISTS` on the current table. A storage error changes nothing, and existing rows are never touched. |
| ProdutoRepo.PresidiarioRepo.Adicionar | sistema_carcerario/produtos/produto_repo.py:24-37 | `None` exactly on a storage error or when the ids are used up. A `cela` outside 64 bits raises the escaping `OverflowError` instead. In those cases nothing changes. Otherwise it returns the positive, previously unused id the insert assigned, and that id now maps to the entity's four fields. Every other row is unchanged. |
| ProdutoRepo.PresidiarioRepo.Obter | sistema_carcerario/produtos/produto_repo.py:39-54 | Without a storage error, an id outside 64 bits raises the escaping `OverflowError`. An entity exactly when there is no storage error and a row has that id; otherwise `None`. The entity is valid, carries that id, and writes back exactly the stored row. |
| ProdutoRepo.PresidiarioRepo.ObterTodos | sistema_carcerario/produtos/produto_repo.py:56-69 | `[]` on a storage error. Otherwise one valid entity per stored row, carrying that row's id and columns, each row exactly once, in no promised order. |
| ProdutoRepo.PresidiarioRepo.Atualizar | sistema_carcerario/produtos/produto_repo.py:71-87 | `false` with no write when the id is absent or on a storage error. Otherwise a `cela` or id outside 64 bits raises the escaping `OverflowError` with no write, and the result is `true` exactly when a row had that id. That row then holds the entity's four fields, and every other row and the next id are unchanged. |
| ProdutoRepo.PresidiarioRepo.Excluir | sistema_carcerario/produtos/produto_repo.py:89-101 | Without a storage error, an id outside 64 bits raises the escaping `OverflowError` with no write. The result is `true` exactly when there is no storage error and a row had that id. Then that row, and only it, is gone, so a later `Obter` of that id is `None`. The next id is unchanged, so the id is never handed out again. |

The repository's class invariant `Valid` holds after every method. It says the table
keeps SQLite's id discipline (ids positive and below the next id) and every stored row
was written from a valid entity (`LinhasValidas`, source lines
sistema_carcerario/produtos/produto_repo.py:33,50,66,83).

## Left out

- `sistema_carcerario/main.py` is not part of this model. It is the interactive menu
  loop: console prompts, re-prompting on unparseable input, the "blank keeps current"
  update merge, and the check-in stub with no persisted effect.
- `sistema_carcerario/util.py` is not part of this model. `get_db_connection` opens,
  commits and closes a connection. It is I/O with no logic beyond that.
- The error messages printed at produto_repo.py:22,36,53,68,77,86,100 are I/O and are
  omitted; only the returned value is modelled.
- A storage error is an input flag, `falha`. It stands for an `sqlite3.Error` raised
  while opening the connection or preparing the statement, before the parameters
  are bound; an out-of-range integer is checked after it. A failed statement leaves the table
  as it was. SQLite executes each statement atomically, and each repository method
  runs exactly one statement, so no partial write exists to commit.
- SQLite internals are omitted: the engine, file format, `lastrowid` and `rowcount`
  mechanics. Binding an integer is reduced to its one failure, the `OverflowError`
  for a value outside the signed 64-bit range, which the repository returns as
  `Err(EstouroInteiro)` (an exception that escapes). `rowcount` is the number of matching rows and `lastrowid` is the id the
  insert assigned.
- Pydantic's type coercion is reduced to what the repository relies on. Field types
  are Dafny types, so a non-integer `cela` or non-string `nome` cannot arise. A birth
  date given as text is parsed only in the `YYYY-MM-DD` form that `str(date)` writes;
  pydantic's other accepted date forms (timestamps, other ISO 8601 variants) are not
  modelled.
- Years outside 1..9999 are not representable, as in Python's `date`.
- Python strings are modelled as sequences of Unicode scalar values, with no
  surrogates. `str.isspace()` is its fixed character set; Unicode properties beyond
  that set are not modelled.
- ProdutoRepo.PresidiarioRepo.Adicionar: a `nome` or `crime` holding a lone surrogate
  (as `input()` yields for undecodable bytes under `surrogateescape`) passes
  validation but raises `UnicodeEncodeError` when bound, which escapes the
  `sqlite3.Error` handler; such strings cannot be expressed here, so this is not
  modelled.
- ProdutoRepo.PresidiarioRepo.Atualizar: the same lone-surrogate `UnicodeEncodeError`
  at the bind escapes `atualizar` and is not modelled, for the same reason.
- ProdutoSql.SelectTodos: the statement has no `ORDER BY`, so any order is allowed.
  The scan returns rows by increasing id, which is one admissible order, and its
  contract promises no order. `ObterTodos` is specified for every order through
  `ListagemDe`.
- The separate SQLite connection per call is not modelled. Calls are sequential, so
  the table state carries over between them unchanged.
- ProdutoRepo.PresidiarioRepo.constructor: it requires the existing table to hold
  only rows this program wrote (ids below the next id, every row a valid entity).
  A database written by other means, for example with date text `1990/01/01` or an
  empty `nome`, would make `obter` and `obter_todos` raise pydantic's
  `ValidationError` past the `sqlite3.Error` handlers, and is not modelled.
- Produto.ValidarCela: it accepts every positive integer. Whether pydantic itself
  refuses an integer beyond 64 bits depends on its version and is not modelled; such
  a value reaches the database binding, where the repository raises `OverflowError`.
