/** The output of a reconciliation: a "Sobrando" (surplus) list and a "Faltando"
    (missing) list of discrepancy records, and what it means for a pair of such
    lists to be the report of two code counts. */
module Report {

  /** One discrepancy record, as the handler pushes it and the export writes it:
      `Sobra` when the store records more units than the sheet holds, `Falta`
      when the sheet holds more. */
  datatype Record =
    | Sobra(codigo: string, quantidadeLoja: nat, quantidadeArquivo: nat, sobrando: nat)
    | Falta(codigo: string, quantidadeLoja: nat, quantidadeArquivo: nat, faltando: nat)

  /** The difference a record reports. */
  function Amount(r: Record): nat {
    match r
    case Sobra(_, _, _, sobrando) => sobrando
    case Falta(_, _, _, faltando) => faltando
  }

  /** The codes a list reports. */
  function Codes(records: seq<Record>): set<string> {
    set r | r in records :: r.codigo
  }

  /** No code is reported twice in one list. */
  predicate DistinctCodes(records: seq<Record>) {
    forall i, j :: 0 <= i < j < |records| ==> records[i].codigo != records[j].codigo
  }

  /** A list read as a multiset of codes: each record's code, as many times as its difference. */
  function Bag(records: seq<Record>): multiset<string> {
    if records == [] then multiset{}
    else
      var last := records[|records| - 1];
      Bag(records[..|records| - 1]) + multiset{}[last.codigo := Amount(last)]
  }

  /** A surplus record for a code whose recorded count `rec` exceeds its uploaded count `up`. */
  ghost predicate IsSurplusRecord(r: Record, rec: multiset<string>, up: multiset<string>) {
    && r.Sobra?
    && r.quantidadeLoja == rec[r.codigo]
    && r.quantidadeArquivo == up[r.codigo]
    && r.sobrando == rec[r.codigo] as int - up[r.codigo]
    && r.sobrando > 0
  }

  /** A missing record for a code whose uploaded count `up` exceeds its recorded count `rec`. */
  ghost predicate IsMissingRecord(r: Record, rec: multiset<string>, up: multiset<string>) {
    && r.Falta?
    && r.quantidadeLoja == rec[r.codigo]
    && r.quantidadeArquivo == up[r.codigo]
    && r.faltando == up[r.codigo] as int - rec[r.codigo]
    && r.faltando > 0
  }

  /** `sobrando` and `faltando` are the report of recorded counts `rec` against uploaded
      counts `up`, in some order: every code recorded more often than uploaded has one
      surplus record, every code uploaded more often than recorded has one missing
      record, and there is nothing else. */
  ghost predicate IsReport(sobrando: seq<Record>, faltando: seq<Record>, rec: multiset<string>, up: multiset<string>) {
    && DistinctCodes(sobrando)
    && DistinctCodes(faltando)
    && (forall i :: 0 <= i < |sobrando| ==> IsSurplusRecord(sobrando[i], rec, up))
    && (forall i :: 0 <= i < |faltando| ==> IsMissingRecord(faltando[i], rec, up))
    && (forall k :: rec[k] > up[k] ==> k in Codes(sobrando))
    && (forall k :: up[k] > rec[k] ==> k in Codes(faltando))
  }

  /** Each code lands in exactly one of three outcomes: surplus, missing, or balanced and
      left out; and only codes counted in one of the two tables are ever reported. */
  lemma Classification(sobrando: seq<Record>, faltando: seq<Record>, rec: multiset<string>, up: multiset<string>)
    requires IsReport(sobrando, faltando, rec, up)
    ensures forall k :: k in Codes(sobrando) <==> rec[k] > up[k]
    ensures forall k :: k in Codes(faltando) <==> up[k] > rec[k]
    ensures Codes(sobrando) !! Codes(faltando)
    ensures forall k :: k in Codes(sobrando) + Codes(faltando) ==> k in rec || k in up
  {
    forall k | k in Codes(sobrando) ensures rec[k] > up[k] {
      var r :| r in sobrando && r.codigo == k;
      var i :| 0 <= i < |sobrando| && sobrando[i] == r;
    }
    forall k | k in Codes(faltando) ensures up[k] > rec[k] {
      var r :| r in faltando && r.codigo == k;
      var i :| 0 <= i < |faltando| && faltando[i] == r;
    }
  }

  /** In a list without repeated codes, the bag holds each record's difference under its code. */
  lemma {:induction false} BagOfDistinct(records: seq<Record>)
    requires DistinctCodes(records)
    ensures forall i :: 0 <= i < |records| ==> Bag(records)[records[i].codigo] == Amount(records[i])
    ensures forall k :: k !in Codes(records) ==> Bag(records)[k] == 0
  {
    if records != [] {
      var n := |records| - 1;
      var front := records[..n];
      BagOfDistinct(front);
      assert Codes(records) == Codes(front) + {records[n].codigo};
      forall i | 0 <= i < |records| ensures Bag(records)[records[i].codigo] == Amount(records[i]) {
        if i < n {
          assert front[i] == records[i];
          assert records[i].codigo != records[n].codigo;
        }
      }
    }
  }

  /** Read as multisets, the surplus list is recorded minus uploaded and the missing
      list is uploaded minus recorded. */
  lemma ReportIsDifference(sobrando: seq<Record>, faltando: seq<Record>, rec: multiset<string>, up: multiset<string>)
    requires IsReport(sobrando, faltando, rec, up)
    ensures Bag(sobrando) == rec - up
    ensures Bag(faltando) == up - rec
  {
    Classification(sobrando, faltando, rec, up);
    SurplusIsDifference(sobrando, rec, up);
    MissingIsDifference(faltando, rec, up);
  }

  lemma SurplusIsDifference(sobrando: seq<Record>, rec: multiset<string>, up: multiset<string>)
    requires DistinctCodes(sobrando)
    requires forall i :: 0 <= i < |sobrando| ==> IsSurplusRecord(sobrando[i], rec, up)
    requires forall k :: k in Codes(sobrando) <==> rec[k] > up[k]
    ensures Bag(sobrando) == rec - up
  {
    BagOfDistinct(sobrando);
    forall k ensures Bag(sobrando)[k] == (rec - up)[k] {
      if k in Codes(sobrando) {
        var i :| 0 <= i < |sobrando| && sobrando[i].codigo == k;
      }
    }
  }

  lemma MissingIsDifference(faltando: seq<Record>, rec: multiset<string>, up: multiset<string>)
    requires DistinctCodes(faltando)
    requires forall i :: 0 <= i < |faltando| ==> IsMissingRecord(faltando[i], rec, up)
    requires forall k :: k in Codes(faltando) <==> up[k] > rec[k]
    ensures Bag(faltando) == up - rec
  {
    BagOfDistinct(faltando);
    forall k ensures Bag(faltando)[k] == (up - rec)[k] {
      if k in Codes(faltando) {
        var i :| 0 <= i < |faltando| && faltando[i].codigo == k;
      }
    }
  }

  /** A list reports no code exactly when it is empty. */
  lemma CodesEmpty(records: seq<Record>)
    ensures Codes(records) == {} <==> records == []
  {
    if records != [] {
      assert records[0].codigo in Codes(records);
    }
  }

  /** A list without repeated codes holds each of its records once. */
  lemma {:induction false} OnceEach(records: seq<Record>, r: Record)
    requires DistinctCodes(records)
    ensures multiset(records)[r] == if r in records then 1 else 0
  {
    if records != [] {
      var n := |records| - 1;
      var front := records[..n];
      assert records == front + [records[n]];
      OnceEach(front, r);
      if r == records[n] {
        assert r !in front by {
          forall i | 0 <= i < n ensures front[i] != r {
          }
        }
      }
    }
  }

  /** Two reports of the same counts hold the same records and differ at most in order. */
  lemma ReportUnique(s1: seq<Record>, f1: seq<Record>, s2: seq<Record>, f2: seq<Record>, rec: multiset<string>, up: multiset<string>)
    requires IsReport(s1, f1, rec, up) && IsReport(s2, f2, rec, up)
    ensures multiset(s1) == multiset(s2) && multiset(f1) == multiset(f2)
  {
    Classification(s1, f1, rec, up);
    Classification(s2, f2, rec, up);
    forall r ensures multiset(s1)[r] == multiset(s2)[r] {
      OnceEach(s1, r);
      OnceEach(s2, r);
      SameMember(s1, s2, r, rec, up, true);
    }
    forall r ensures multiset(f1)[r] == multiset(f2)[r] {
      OnceEach(f1, r);
      OnceEach(f2, r);
      SameMember(f1, f2, r, rec, up, false);
    }
  }

  /** Two lists that both report the surplus (or both the missing) codes of the same
      counts contain the same records. */
  lemma SameMember(l1: seq<Record>, l2: seq<Record>, r: Record, rec: multiset<string>, up: multiset<string>, surplus: bool)
    requires surplus ==> forall i :: 0 <= i < |l1| ==> IsSurplusRecord(l1[i], rec, up)
    requires surplus ==> forall i :: 0 <= i < |l2| ==> IsSurplusRecord(l2[i], rec, up)
    requires !surplus ==> forall i :: 0 <= i < |l1| ==> IsMissingRecord(l1[i], rec, up)
    requires !surplus ==> forall i :: 0 <= i < |l2| ==> IsMissingRecord(l2[i], rec, up)
    requires Codes(l1) == Codes(l2)
    ensures r in l1 <==> r in l2
  {
    if r in l1 {
      assert r.codigo in Codes(l2);
      var j :| 0 <= j < |l2| && l2[j].codigo == r.codigo;
      assert l2[j] == r;
    }
    if r in l2 {
      assert r.codigo in Codes(l1);
      var j :| 0 <= j < |l1| && l1[j].codigo == r.codigo;
      assert l1[j] == r;
    }
  }

  /** Both lists are empty exactly when the two counts agree on every code. */
  lemma BalancedIff(sobrando: seq<Record>, faltando: seq<Record>, rec: multiset<string>, up: multiset<string>)
    requires IsReport(sobrando, faltando, rec, up)
    ensures sobrando == [] && faltando == [] <==> rec == up
  {
    Classification(sobrando, faltando, rec, up);
    if sobrando == [] && faltando == [] {
      forall k ensures rec[k] == up[k] {
        assert k !in Codes(sobrando) && k !in Codes(faltando);
      }
    }
    CodesEmpty(sobrando);
    CodesEmpty(faltando);
  }

  /** With nothing recorded, every uploaded code is missing, recorded as zero, and nothing is surplus. */
  lemma NothingRecorded(sobrando: seq<Record>, faltando: seq<Record>, up: multiset<string>)
    requires IsReport(sobrando, faltando, multiset{}, up)
    ensures sobrando == []
    ensures Codes(faltando) == set k | k in up
    ensures forall r :: r in faltando ==> r.quantidadeLoja == 0 && r.faltando == up[r.codigo]
  {
    Classification(sobrando, faltando, multiset{}, up);
    CodesEmpty(sobrando);
  }

  /** With only a header uploaded, every recorded code is surplus, uploaded as zero, and nothing is missing. */
  lemma NothingUploaded(sobrando: seq<Record>, faltando: seq<Record>, rec: multiset<string>)
    requires IsReport(sobrando, faltando, rec, multiset{})
    ensures faltando == []
    ensures Codes(sobrando) == set k | k in rec
    ensures forall r :: r in sobrando ==> r.quantidadeArquivo == 0 && r.sobrando == rec[r.codigo]
  {
    Classification(sobrando, faltando, rec, multiset{});
    CodesEmpty(faltando);
  }
}
