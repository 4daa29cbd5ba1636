/** The stock check run when a sheet is uploaded: the guard of the upload handler,
    the comparison of the two frequency tables, and the whole reconciliation. */
module Conferencia {
  import opened Cells
  import opened Counting
  import opened Report

  /** The fields of a store's document that the check reads: its recorded code
      list `texto`, or None when that field is absent or not an array. */
  datatype StoreDoc = StoreDoc(texto: Option<seq<Cell>>)

  /** What an upload leads to: an alert and nothing else, or the two lists handed to the export. */
  datatype Outcome =
    | Alerted
    | Exported(sobrando: seq<Record>, faltando: seq<Record>)

  /** Walks the union of the codes of both tables, in no particular order, and
      sorts each code into a surplus record, a missing record, or nothing. */
  method Diff(contagemFirebase: Table, contagemArquivo: Table, ghost rec: multiset<string>, ghost up: multiset<string>)
    returns (sobrando: seq<Record>, faltando: seq<Record>)
    requires contagemFirebase == TableOf(rec) && contagemArquivo == TableOf(up)
    ensures IsReport(sobrando, faltando, rec, up)
  {
    sobrando, faltando := [], [];
    var todosCodigos := contagemFirebase.Keys + contagemArquivo.Keys;
    forall k | rec[k] > up[k] || up[k] > rec[k] ensures k in todosCodigos {
      LookupCount(rec, k);
      LookupCount(up, k);
    }
    var pendentes := todosCodigos;
    while pendentes != {}
      invariant ReportSoFar(sobrando, faltando, rec, up, pendentes)
      decreases pendentes
    {
      var codigo :| codigo in pendentes;
      var qFirebase := Lookup(contagemFirebase, codigo);
      var qArquivo := Lookup(contagemArquivo, codigo);
      LookupCount(rec, codigo);
      LookupCount(up, codigo);
      if qFirebase > qArquivo {
        SurplusStep(sobrando, faltando, rec, up, pendentes, codigo);
        sobrando := sobrando + [Sobra(codigo, qFirebase, qArquivo, qFirebase - qArquivo)];
      } else if qFirebase < qArquivo {
        MissingStep(sobrando, faltando, rec, up, pendentes, codigo);
        faltando := faltando + [Falta(codigo, qFirebase, qArquivo, qArquivo - qFirebase)];
      } else {
        BalancedStep(sobrando, faltando, rec, up, pendentes, codigo);
      }
      pendentes := pendentes - {codigo};
    }
  }

  /** The loop's invariant: every code no longer pending is sorted, and no record names
      a code still pending. */
  ghost predicate ReportSoFar(sobrando: seq<Record>, faltando: seq<Record>, rec: multiset<string>, up: multiset<string>,
                              pendentes: set<string>)
  {
    && DistinctCodes(sobrando)
    && DistinctCodes(faltando)
    && (forall i :: 0 <= i < |sobrando| ==> sobrando[i].codigo !in pendentes && IsSurplusRecord(sobrando[i], rec, up))
    && (forall i :: 0 <= i < |faltando| ==> faltando[i].codigo !in pendentes && IsMissingRecord(faltando[i], rec, up))
    && (forall k :: k !in pendentes && rec[k] > up[k] ==> k in Codes(sobrando))
    && (forall k :: k !in pendentes && up[k] > rec[k] ==> k in Codes(faltando))
  }

  lemma SurplusStep(sobrando: seq<Record>, faltando: seq<Record>, rec: multiset<string>, up: multiset<string>,
                    pendentes: set<string>, codigo: string)
    requires ReportSoFar(sobrando, faltando, rec, up, pendentes)
    requires codigo in pendentes && rec[codigo] > up[codigo]
    ensures ReportSoFar(sobrando + [Sobra(codigo, rec[codigo], up[codigo], rec[codigo] - up[codigo])], faltando,
                        rec, up, pendentes - {codigo})
  {
    var s' := sobrando + [Sobra(codigo, rec[codigo], up[codigo], rec[codigo] - up[codigo])];
    assert Codes(s') == Codes(sobrando) + {codigo};
  }

  lemma MissingStep(sobrando: seq<Record>, faltando: seq<Record>, rec: multiset<string>, up: multiset<string>,
                    pendentes: set<string>, codigo: string)
    requires ReportSoFar(sobrando, faltando, rec, up, pendentes)
    requires codigo in pendentes && up[codigo] > rec[codigo]
    ensures ReportSoFar(sobrando, faltando + [Falta(codigo, rec[codigo], up[codigo], up[codigo] - rec[codigo])],
                        rec, up, pendentes - {codigo})
  {
    var f' := faltando + [Falta(codigo, rec[codigo], up[codigo], up[codigo] - rec[codigo])];
    assert Codes(f') == Codes(faltando) + {codigo};
  }

  lemma BalancedStep(sobrando: seq<Record>, faltando: seq<Record>, rec: multiset<string>, up: multiset<string>,
                     pendentes: set<string>, codigo: string)
    requires ReportSoFar(sobrando, faltando, rec, up, pendentes)
    requires codigo in pendentes && up[codigo] == rec[codigo]
    ensures ReportSoFar(sobrando, faltando, rec, up, pendentes - {codigo})
  {
  }

  /** Counts both sources and compares the counts: the lists are the report of the
      recorded codes against the uploaded ones. */
  method Reconcile(data: seq<Row>, texto: Option<seq<Cell>>) returns (sobrando: seq<Record>, faltando: seq<Record>)
    ensures IsReport(sobrando, faltando, RecordedBag(texto), UploadedBag(data))
  {
    var contagemArquivo := CountUploaded(data);
    var contagemFirebase := CountRecorded(texto);
    sobrando, faltando := Diff(contagemFirebase, contagemArquivo, RecordedBag(texto), UploadedBag(data));
  }

  /** The upload handler: without a file or without a loaded store it only alerts;
      otherwise it reconciles the first sheet's rows against the store's list.
      `file` is the decoded first sheet of the chosen file. */
  method HandleXlsx(file: Option<seq<Row>>, dadosLoja: Option<StoreDoc>) returns (o: Outcome)
    ensures o.Alerted? <==> file.None? || dadosLoja.None?
    ensures o.Exported? ==> IsReport(o.sobrando, o.faltando, RecordedBag(dadosLoja.value.texto), UploadedBag(file.value))
  {
    if file.None? || dadosLoja.None? {
      return Alerted;
    }
    var sobrando, faltando := Reconcile(file.value, dadosLoja.value.texto);
    o := Exported(sobrando, faltando);
  }

  /** Store records A, A, B; the sheet holds a header and A, B, B. */
  const sheetAB: seq<Row> :=
    [[Str("loja"), Str("descricao"), Str("codigo")], [Empty, Empty, Str("A")], [Empty, Empty, Str("B")], [Empty, Empty, Str("B")]]
  const textoAB: Option<seq<Cell>> := Some([Str("A"), Str("A"), Str("B")])

  lemma RecordedAB()
    ensures RecordedBag(textoAB) == multiset{"A", "A", "B"}
  {
    var codigos := textoAB.value;
    assert CodesUpTo(codigos, 1) == multiset{"A"};
    assert CodesUpTo(codigos, 2) == multiset{"A", "A"};
    assert CodesUpTo(codigos, 3) == multiset{"A", "A", "B"};
  }

  lemma UploadedAB()
    ensures UploadedBag(sheetAB) == multiset{"A", "B", "B"}
  {
    var rows := sheetAB;
    assert Contribution(CodeCell(rows[1])) == multiset{"A"};
    assert Contribution(CodeCell(rows[2])) == multiset{"B"};
    assert Contribution(CodeCell(rows[3])) == multiset{"B"};
    assert UploadedUpTo(rows, 2) == multiset{"A"};
    assert UploadedUpTo(rows, 3) == multiset{"A", "B"};
  }

  /** The report that the A, B example calls for. */
  lemma ReportAB()
    ensures IsReport([Sobra("A", 2, 1, 1)], [Falta("B", 1, 2, 1)], multiset{"A", "A", "B"}, multiset{"A", "B", "B"})
  {
    var rec, up := multiset{"A", "A", "B"}, multiset{"A", "B", "B"};
    forall k | rec[k] > up[k] ensures k in Codes([Sobra("A", 2, 1, 1)]) {
      assert k == "A";
    }
    forall k | up[k] > rec[k] ensures k in Codes([Falta("B", 1, 2, 1)]) {
      assert k == "B";
    }
  }

  /** A is one over, B one short. */
  method ExampleOneEach() returns (o: Outcome)
    ensures o == Exported([Sobra("A", 2, 1, 1)], [Falta("B", 1, 2, 1)])
  {
    o := HandleXlsx(Some(sheetAB), Some(StoreDoc(textoAB)));
    RecordedAB();
    UploadedAB();
    ReportAB();
    ReportUnique(o.sobrando, o.faltando, [Sobra("A", 2, 1, 1)], [Falta("B", 1, 2, 1)],
                 multiset{"A", "A", "B"}, multiset{"A", "B", "B"});
    SingletonFromMultiset(o.sobrando, Sobra("A", 2, 1, 1));
    SingletonFromMultiset(o.faltando, Falta("B", 1, 2, 1));
  }

  /** Nothing recorded; the sheet holds a header and X: X is missing once. */
  method ExampleNothingRecorded() returns (o: Outcome)
    ensures o == Exported([], [Falta("X", 0, 1, 1)])
  {
    var rows := [[Str("codigo")], [Empty, Num(7), Str("X")]];
    var up := UploadedBag(rows);
    assert up == multiset{"X"} by {
      assert UploadedUpTo(rows, 2) == multiset{"X"};
    }
    o := HandleXlsx(Some(rows), Some(StoreDoc(Some([]))));
    NothingRecorded(o.sobrando, o.faltando, up);
    var expectedF := [Falta("X", 0, 1, 1)];
    assert IsReport([], expectedF, multiset{}, up);
    ReportUnique(o.sobrando, o.faltando, [], expectedF, multiset{}, up);
    SingletonFromMultiset(o.faltando, expectedF[0]);
  }

  /** The store records the number 12 and "x"; the sheet holds, after its header, a short row,
      a row whose code is 0, then "x" and the text "12": the counts agree and nothing is reported. */
  const sheetSame: seq<Row> :=
    [[Str("codigo")], [Str("nota")], [Empty, Empty, Num(0)], [Empty, Empty, Str("x")], [Empty, Empty, Str("12")]]
  const textoSame: Option<seq<Cell>> := Some([Num(12), Empty, Str("x")])

  lemma CountsSame()
    ensures RecordedBag(textoSame) == UploadedBag(sheetSame)
  {
    RecordedSame();
    UploadedSame();
  }

  lemma RecordedSame()
    ensures RecordedBag(textoSame) == multiset{"12", "x"}
  {
    assert Key(Num(12)) == "12";
    var codigos := textoSame.value;
    assert CodesUpTo(codigos, 1) == multiset{"12"};
    assert CodesUpTo(codigos, 2) == multiset{"12"};
    assert CodesUpTo(codigos, 3) == multiset{"12", "x"};
  }

  lemma UploadedSame()
    ensures UploadedBag(sheetSame) == multiset{"12", "x"}
  {
    var rows := sheetSame;
    assert Contribution(CodeCell(rows[1])) == multiset{};
    assert Contribution(CodeCell(rows[2])) == multiset{};
    assert Contribution(CodeCell(rows[3])) == multiset{"x"};
    assert Contribution(CodeCell(rows[4])) == multiset{"12"};
    assert UploadedUpTo(rows, 2) == multiset{};
    assert UploadedUpTo(rows, 3) == multiset{};
    assert UploadedUpTo(rows, 4) == multiset{"x"};
  }

  /** Equal counts, whatever the order and whether a code is a number or its text, give two empty lists. */
  method ExampleBalanced() returns (o: Outcome)
    ensures o == Exported([], [])
  {
    o := HandleXlsx(Some(sheetSame), Some(StoreDoc(textoSame)));
    CountsSame();
    BalancedIff(o.sobrando, o.faltando, RecordedBag(textoSame), UploadedBag(sheetSame));
  }

  /** A sequence whose multiset is one element is that element alone. */
  lemma SingletonFromMultiset(s: seq<Record>, r: Record)
    requires multiset(s) == multiset([r])
    ensures s == [r]
  {
    assert |s| == |multiset(s)| == 1;
    assert s[0] in multiset(s);
  }
}
