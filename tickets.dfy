/**
 * Issuing tickets, as values: which operation names are known, how a ticket
 * number is written, and what a run of requests does to the counter table.
 */
module Tickets {
  import opened Wrappers
  import opened PyText
  import opened CounterFile

  /** The three operation names a customer can ask for. */
  predicate KnownOperation(operation: string) {
    operation == "Versement" || operation == "Retrait" || operation == "Informations"
  }

  /**
   * The code of an operation name; `None` stands for the KeyError raised by
   * the lookup of any other name. The code is the name's initial.
   */
  function OperationCode(operation: string): (code: Option<string>)
    ensures code.Some? <==> KnownOperation(operation)
    ensures code.Some? ==> code.value in Zero && code.value == operation[..1]
  {
    if operation == "Versement" then Some("V")
    else if operation == "Retrait" then Some("R")
    else if operation == "Informations" then Some("I")
    else None
  }

  /** The ticket number `f"{code}-{n}"`. */
  function TicketNumber(code: string, n: int): string {
    code + "-" + IntToString(n)
  }

  /** A ticket number is its code, a '-', then text that `int()` reads back as the number. */
  lemma TicketNumberParts(code: string, n: int)
    ensures |TicketNumber(code, n)| > |code| + 1
    ensures TicketNumber(code, n)[..|code|] == code && TicketNumber(code, n)[|code|] == '-'
    ensures ParseInt(TicketNumber(code, n)[|code| + 1..]) == Some(n)
  {
    IntToStringChars(n);
    IntRoundTrip(n);
    assert TicketNumber(code, n)[|code| + 1..] == IntToString(n);
  }

  /** Two tickets are the same exactly when their codes and their numbers are. */
  lemma TicketNumberInjective(c1: string, n1: int, c2: string, n2: int)
    requires c1 in Zero && c2 in Zero
    ensures TicketNumber(c1, n1) == TicketNumber(c2, n2) <==> c1 == c2 && n1 == n2
  {
    if TicketNumber(c1, n1) == TicketNumber(c2, n2) {
      var t := TicketNumber(c1, n1);
      assert |c1| == 1 && |c2| == 1;
      assert c1 == t[..1] == c2;
      assert IntToString(n1) == t[2..] == IntToString(n2);
      StrInjective(n1, n2);
    }
  }

  /** Different numbers are written differently, since `int()` reads each back. */
  lemma StrInjective(n1: int, n2: int)
    ensures IntToString(n1) == IntToString(n2) ==> n1 == n2
  {
    IntRoundTrip(n1);
    IntRoundTrip(n2);
  }

  /** What a request returns: the ticket and the number of people waiting before it, or the unknown name. */
  datatype IssueResult = Issued(ticket: string, waiting: int) | UnknownOperation

  /**
   * One request on table `t`: an unknown name changes nothing; a known one
   * increments its own counter only, and the ticket carries the new count.
   */
  function IssueStep(t: Table, operation: string): (res: (Table, IssueResult))
    ensures !KnownOperation(operation) ==> res == (t, UnknownOperation)
    ensures KnownOperation(operation) ==>
              var c := OperationCode(operation).value;
              && res.0[c] == t[c] + 1
              && (forall d :: d in t && d != c ==> res.0[d] == t[d])
              && res.1 == Issued(TicketNumber(c, res.0[c]), res.0[c] - 1)
              && res.1.waiting == t[c]
  {
    match OperationCode(operation)
    case None => (t, UnknownOperation)
    case Some(c) =>
      var t' := t[c := t[c] + 1];
      (t', Issued(TicketNumber(c, t'[c]), t'[c] - 1))
  }

  /** A run of requests, one after the other, from table `t`. */
  function IssueAll(t: Table, operations: seq<string>): (res: (Table, seq<IssueResult>))
    ensures |res.1| == |operations|
  {
    if operations == [] then (t, [])
    else
      var (t1, rs) := IssueAll(t, operations[..|operations| - 1]);
      var (t2, r) := IssueStep(t1, operations[|operations| - 1]);
      (t2, rs + [r])
  }

  /** How many of the requests are for the operation with code `code`. */
  function CountFor(operations: seq<string>, code: string): nat {
    if operations == [] then 0
    else
      CountFor(operations[..|operations| - 1], code)
      + (if OperationCode(operations[|operations| - 1]) == Some(code) then 1 else 0)
  }

  /**
   * The result of request `k` of a run, in closed form: the requests of the
   * same code before it number the people waiting ahead of it.
   */
  function ResultAt(t: Table, operations: seq<string>, k: nat): IssueResult
    requires k < |operations|
  {
    match OperationCode(operations[k])
    case None => UnknownOperation
    case Some(c) =>
      var before := t[c] + CountFor(operations[..k], c);
      Issued(TicketNumber(c, before + 1), before)
  }

  /**
   * After a run, each counter has grown by the number of requests for its
   * code, and the tickets of one code are numbered on from the starting count
   * in steps of one, in the order of the requests.
   */
  lemma {:induction false} IssueAllCounts(t: Table, operations: seq<string>)
    ensures forall c :: c in t ==> IssueAll(t, operations).0[c] == t[c] + CountFor(operations, c)
    ensures forall k :: 0 <= k < |operations| ==> IssueAll(t, operations).1[k] == ResultAt(t, operations, k)
  {
    if operations != [] {
      var n := |operations| - 1;
      var prefix, last := operations[..n], operations[n];
      IssueAllCounts(t, prefix);
      var (t1, rs) := IssueAll(t, prefix);
      var (t2, r) := IssueStep(t1, last);
      assert IssueAll(t, operations) == (t2, rs + [r]);
      forall k | 0 <= k < |operations|
        ensures (rs + [r])[k] == ResultAt(t, operations, k)
      {
        if k < n {
          assert operations[..k] == prefix[..k];
          assert (rs + [r])[k] == rs[k] == ResultAt(t, prefix, k);
        } else {
          assert operations[..k] == prefix;
        }
      }
    }
  }

  /** The number of earlier requests of a code grows strictly past each request of that code. */
  lemma {:induction false} CountForGrows(operations: seq<string>, k: nat, l: nat, code: string)
    requires k < l <= |operations|
    requires OperationCode(operations[k]) == Some(code)
    ensures CountFor(operations[..l], code) > CountFor(operations[..k], code)
  {
    if l == k + 1 {
      assert operations[..l][..k] == operations[..k];
    } else {
      CountForGrows(operations, k, l - 1, code);
      assert operations[..l][..l - 1] == operations[..l - 1];
    }
  }

  /** No two tickets handed out in one run are the same. */
  lemma TicketsDistinct(t: Table, operations: seq<string>, k: nat, l: nat)
    requires k < l < |operations|
    requires IssueAll(t, operations).1[k].Issued? && IssueAll(t, operations).1[l].Issued?
    ensures IssueAll(t, operations).1[k].ticket != IssueAll(t, operations).1[l].ticket
  {
    IssueAllCounts(t, operations);
    var ck, cl := OperationCode(operations[k]).value, OperationCode(operations[l]).value;
    var nk := t[ck] + CountFor(operations[..k], ck) + 1;
    var nl := t[cl] + CountFor(operations[..l], cl) + 1;
    if ck == cl {
      CountForGrows(operations, k, l, ck);
    }
    TicketNumberInjective(ck, nk, cl, nl);
  }
}
