/** The two frequency tables of a reconciliation: how often each code occurs in the
    uploaded sheet (`contagemArquivo`) and in the store's recorded list
    (`contagemFirebase`). The bags below say what the tables must hold; the two
    methods build them the way the upload handler does, one entry at a time. */
module Counting {
  import opened Cells

  /** A frequency table, as the plain object the handler fills: code to count. */
  type Table = map<string, nat>

  /** `table[codigo] || 0`: a code the table lacks reads as zero. */
  function Lookup(table: Table, codigo: string): (q: nat)
    ensures codigo in table ==> q == table[codigo]
    ensures codigo !in table ==> q == 0
  {
    if codigo in table then table[codigo] else 0
  }

  /** The table that holds exactly the codes of a bag, each with its multiplicity. */
  function TableOf(bag: multiset<string>): Table {
    map k | k in bag :: bag[k]
  }

  /** Reading a bag's table with a default of zero gives the code's multiplicity, zero included. */
  lemma LookupCount(bag: multiset<string>, k: string)
    ensures Lookup(TableOf(bag), k) == bag[k]
    ensures k in TableOf(bag) <==> k in bag
  {
  }

  /** A cell holds code `k` when it is truthy and its key is `k`. */
  predicate HasKey(c: Cell, k: string) {
    Truthy(c) && Key(c) == k
  }

  /** What one value adds to a count: one occurrence of its key if it is truthy, nothing otherwise. */
  function Contribution(c: Cell): multiset<string> {
    if Truthy(c) then multiset{Key(c)} else multiset{}
  }

  /** What one step of either counting loop does to a table: a truthy value increments
      its key's entry, starting from 0 when the key is absent; a falsy one is skipped. */
  function Add(table: Table, c: Cell): (t: Table)
    ensures t.Keys == table.Keys + (if Truthy(c) then {Key(c)} else {})
    ensures Truthy(c) ==> t[Key(c)] == Lookup(table, Key(c)) + 1
  {
    if Truthy(c) then table[Key(c) := Lookup(table, Key(c)) + 1] else table
  }

  /** One step adds exactly the value's contribution to every code's count, and creates
      no entry for a code it does not count. */
  lemma AddCounts(table: Table, c: Cell, k: string)
    ensures Lookup(Add(table, c), k) == Lookup(table, k) + Contribution(c)[k]
    ensures k in Add(table, c) <==> k in table || k in Contribution(c)
  {
  }

  /** The codes of the first `n` entries of a list. */
  function CodesUpTo(cells: seq<Cell>, n: nat): multiset<string>
    requires n <= |cells|
  {
    if n == 0 then multiset{} else CodesUpTo(cells, n - 1) + Contribution(cells[n - 1])
  }

  /** The codes of a list of values. */
  function CodeBag(cells: seq<Cell>): multiset<string> {
    CodesUpTo(cells, |cells|)
  }

  /** The recorded codes of a store; a `texto` field that is not an array records nothing. */
  function RecordedBag(texto: Option<seq<Cell>>): multiset<string> {
    match texto
    case None => multiset{}
    case Some(codigos) => CodeBag(codigos)
  }

  /** The codes in the code column of rows 1 to `n - 1` (row 0 is the header). */
  function UploadedUpTo(rows: seq<Row>, n: nat): multiset<string>
    requires n <= |rows|
  {
    if n <= 1 then multiset{} else UploadedUpTo(rows, n - 1) + Contribution(CodeCell(rows[n - 1]))
  }

  /** The uploaded codes: the code column of every row but the first. */
  function UploadedBag(rows: seq<Row>): multiset<string> {
    UploadedUpTo(rows, |rows|)
  }

  /** The positions among the first `n` of a list that hold code `k`. */
  ghost function Holding(cells: seq<Cell>, n: nat, k: string): set<int> {
    set i | 0 <= i < n && i < |cells| && HasKey(cells[i], k)
  }

  /** The rows after the header, among the first `n`, whose code column holds code `k`. */
  ghost function RowsHolding(rows: seq<Row>, n: nat, k: string): set<int> {
    set i | 1 <= i < n && i < |rows| && HasKey(CodeCell(rows[i]), k)
  }

  /** A value adds one occurrence of a code exactly when it holds that code. */
  lemma ContributionCount(c: Cell, k: string)
    ensures Contribution(c)[k] == if HasKey(c, k) then 1 else 0
  {
  }

  /** Extending a prefix by one entry adds that position exactly when it holds the code. */
  lemma HoldingStep(cells: seq<Cell>, n: nat, k: string)
    requires 0 < n <= |cells|
    ensures |Holding(cells, n, k)| == |Holding(cells, n - 1, k)| + if HasKey(cells[n - 1], k) then 1 else 0
  {
    var before := Holding(cells, n - 1, k);
    if HasKey(cells[n - 1], k) {
      assert Holding(cells, n, k) == before + {n - 1};
      assert n - 1 !in before;
    } else {
      assert Holding(cells, n, k) == before;
    }
  }

  /** The recorded count of a code is the number of list entries that hold it:
      falsy entries count for nothing and each truthy entry counts once. */
  lemma CodeBagCount(cells: seq<Cell>, k: string)
    ensures CodeBag(cells)[k] == |Holding(cells, |cells|, k)|
  {
    CodesUpToCount(cells, |cells|, k);
  }

  lemma {:induction false} CodesUpToCount(cells: seq<Cell>, n: nat, k: string)
    requires n <= |cells|
    ensures CodesUpTo(cells, n)[k] == |Holding(cells, n, k)|
  {
    if n == 0 {
      assert Holding(cells, n, k) == {};
    } else {
      CodesUpToCount(cells, n - 1, k);
      HoldingStep(cells, n, k);
      ContributionCount(cells[n - 1], k);
    }
  }

  /** Before the second row, no row is counted. */
  lemma RowsHoldingNone(rows: seq<Row>, n: nat, k: string)
    requires n <= 1
    ensures |RowsHolding(rows, n, k)| == 0
  {
    assert RowsHolding(rows, n, k) == {};
  }

  /** Extending a prefix by one row adds that row exactly when its code column holds the code. */
  lemma RowsHoldingStep(rows: seq<Row>, n: nat, k: string)
    requires 1 < n <= |rows|
    ensures |RowsHolding(rows, n, k)| == |RowsHolding(rows, n - 1, k)| + if HasKey(CodeCell(rows[n - 1]), k) then 1 else 0
  {
    var before := RowsHolding(rows, n - 1, k);
    if HasKey(CodeCell(rows[n - 1]), k) {
      assert RowsHolding(rows, n, k) == before + {n - 1};
      assert n - 1 !in before;
    } else {
      assert RowsHolding(rows, n, k) == before;
    }
  }

  /** The uploaded count of a code is the number of non-header rows whose code column
      holds it; rows with a falsy or missing code column count for nothing. */
  lemma UploadedBagCount(rows: seq<Row>, k: string)
    ensures UploadedBag(rows)[k] == |RowsHolding(rows, |rows|, k)|
  {
    UploadedUpToCount(rows, |rows|, k);
  }

  lemma {:induction false} UploadedUpToCount(rows: seq<Row>, n: nat, k: string)
    requires n <= |rows|
    ensures UploadedUpTo(rows, n)[k] == |RowsHolding(rows, n, k)|
  {
    if n <= 1 {
      RowsHoldingNone(rows, n, k);
    } else {
      UploadedUpToCount(rows, n - 1, k);
      RowsHoldingStep(rows, n, k);
      ContributionCount(CodeCell(rows[n - 1]), k);
    }
  }

  /** The header row never contributes, whatever it holds. */
  lemma HeaderIgnored(rows: seq<Row>, header: Row)
    requires |rows| > 0
    ensures UploadedBag(rows[0 := header]) == UploadedBag(rows)
  {
    HeaderIgnoredUpTo(rows, header, |rows|);
  }

  lemma {:induction false} HeaderIgnoredUpTo(rows: seq<Row>, header: Row, n: nat)
    requires 0 < |rows| && n <= |rows|
    ensures UploadedUpTo(rows[0 := header], n) == UploadedUpTo(rows, n)
  {
    if n > 1 {
      HeaderIgnoredUpTo(rows, header, n - 1);
    }
  }

  /** No falsy cell becomes a code: the empty string is never counted. */
  lemma NoEmptyCode(cells: seq<Cell>, rows: seq<Row>)
    ensures "" !in CodeBag(cells) && "" !in UploadedBag(rows)
  {
    NoEmptyCodeUpTo(cells, |cells|, rows, |rows|);
  }

  lemma {:induction false} NoEmptyCodeUpTo(cells: seq<Cell>, n: nat, rows: seq<Row>, m: nat)
    requires n <= |cells| && m <= |rows|
    ensures "" !in CodesUpTo(cells, n) && "" !in UploadedUpTo(rows, m)
  {
    if n > 0 {
      NoEmptyCodeUpTo(cells, n - 1, rows, m);
    }
    if m > 1 {
      NoEmptyCodeUpTo(cells, n, rows, m - 1);
    }
  }

  /** The table the upload loop has built after its first `n` steps. */
  function TalliedRows(rows: seq<Row>, n: nat): Table
    requires n <= |rows|
  {
    if n <= 1 then map[] else Add(TalliedRows(rows, n - 1), CodeCell(rows[n - 1]))
  }

  /** The table the recorded-list loop has built after its first `n` steps. */
  function Tallied(cells: seq<Cell>, n: nat): Table
    requires n <= |cells|
  {
    if n == 0 then map[] else Add(Tallied(cells, n - 1), cells[n - 1])
  }

  lemma {:induction false} TalliedRowsCount(rows: seq<Row>, n: nat, k: string)
    requires n <= |rows|
    ensures Lookup(TalliedRows(rows, n), k) == UploadedUpTo(rows, n)[k]
    ensures k in TalliedRows(rows, n) <==> k in UploadedUpTo(rows, n)
  {
    if n > 1 {
      TalliedRowsCount(rows, n - 1, k);
      AddCounts(TalliedRows(rows, n - 1), CodeCell(rows[n - 1]), k);
    }
  }

  lemma {:induction false} TalliedCount(cells: seq<Cell>, n: nat, k: string)
    requires n <= |cells|
    ensures Lookup(Tallied(cells, n), k) == CodesUpTo(cells, n)[k]
    ensures k in Tallied(cells, n) <==> k in CodesUpTo(cells, n)
  {
    if n > 0 {
      TalliedCount(cells, n - 1, k);
      AddCounts(Tallied(cells, n - 1), cells[n - 1], k);
    }
  }

  /** A table agrees with a bag on every code, zero included, exactly when it is that bag's table. */
  lemma SameCounts(table: Table, bag: multiset<string>)
    requires forall k :: Lookup(table, k) == bag[k] && (k in table <==> k in bag)
    ensures table == TableOf(bag)
  {
    forall k | k in table ensures table[k] == TableOf(bag)[k] {
      assert Lookup(table, k) == bag[k];
    }
  }

  /** Running the upload loop to the end builds the table of the uploaded bag. */
  lemma TalliedRowsTable(rows: seq<Row>)
    ensures TalliedRows(rows, |rows|) == TableOf(UploadedBag(rows))
  {
    forall k ensures Lookup(TalliedRows(rows, |rows|), k) == UploadedBag(rows)[k]
                  && (k in TalliedRows(rows, |rows|) <==> k in UploadedBag(rows)) {
      TalliedRowsCount(rows, |rows|, k);
    }
    SameCounts(TalliedRows(rows, |rows|), UploadedBag(rows));
  }

  /** Running the recorded-list loop to the end builds the table of the list's codes. */
  lemma TalliedTable(cells: seq<Cell>)
    ensures Tallied(cells, |cells|) == TableOf(CodeBag(cells))
  {
    forall k ensures Lookup(Tallied(cells, |cells|), k) == CodeBag(cells)[k]
                  && (k in Tallied(cells, |cells|) <==> k in CodeBag(cells)) {
      TalliedCount(cells, |cells|, k);
    }
    SameCounts(Tallied(cells, |cells|), CodeBag(cells));
  }

  /** Counts the code column of every row after the header into a fresh table. */
  method CountUploaded(data: seq<Row>) returns (contagemArquivo: Table)
    ensures contagemArquivo == TableOf(UploadedBag(data))
  {
    contagemArquivo := map[];
    var idx := 0;
    while idx < |data|
      invariant 0 <= idx <= |data|
      invariant contagemArquivo == TalliedRows(data, idx)
    {
      if idx != 0 {
        var codigo := CodeCell(data[idx]);
        if Truthy(codigo) {
          var k := Key(codigo);
          contagemArquivo := contagemArquivo[k := Lookup(contagemArquivo, k) + 1];
        }
      }
      idx := idx + 1;
    }
    TalliedRowsTable(data);
  }

  /** Counts the truthy entries of the recorded list, if it is an array, into a fresh table. */
  method CountRecorded(texto: Option<seq<Cell>>) returns (contagemFirebase: Table)
    ensures contagemFirebase == TableOf(RecordedBag(texto))
  {
    contagemFirebase := map[];
    if texto.Some? {
      var codigos := texto.value;
      var i := 0;
      while i < |codigos|
        invariant 0 <= i <= |codigos|
        invariant contagemFirebase == Tallied(codigos, i)
      {
        var codigo := codigos[i];
        if Truthy(codigo) {
          var k := Key(codigo);
          contagemFirebase := contagemFirebase[k := Lookup(contagemFirebase, k) + 1];
        }
        i := i + 1;
      }
      TalliedTable(codigos);
    } else {
      assert TableOf(multiset{}) == map[];
    }
  }
}
