/** The recipient table and the selection of the rows a campaign processes:
    rows whose address cell is present, in table order, cut to the first
    three in test mode. */
module Dataset {

  /** One cell of the table, already in string form; `Missing` is a cell the
      table holds as not-a-number (an empty field of the uploaded file). */
  datatype Cell = Missing | Str(text: string)

  /** A row maps each column name to its cell. */
  type Record = map<string, Cell>

  datatype Table = Table(columns: seq<string>, rows: seq<Record>)
  {
    /** The column names are distinct, and the schema is uniform: every row
        has a cell for every column. */
    predicate Valid() {
      && (forall i, j :: 0 <= i < j < |columns| ==> columns[i] != columns[j])
      && (forall i :: 0 <= i < |rows| ==> Conforms(rows[i], columns))
    }
  }

  predicate Conforms(row: Record, columns: seq<string>) {
    forall c :: c in columns ==> c in row
  }

  /** Number of rows processed in test mode. */
  const TestModeCap: nat := 3

  /** The row's address cell is present (pandas `notna`). */
  predicate HasAddress(row: Record, key: string) {
    key in row && row[key].Str?
  }

  /** The rows with an address, in table order. */
  function Eligible(rows: seq<Record>, key: string): (r: seq<Record>)
    ensures |r| <= |rows|
    ensures forall x :: x in r <==> x in rows && HasAddress(x, key)
  {
    if |rows| == 0 then []
    else if HasAddress(rows[0], key) then [rows[0]] + Eligible(rows[1..], key)
    else Eligible(rows[1..], key)
  }

  /** How many rows have an address (`notna().sum()`), counted one row at a
      time from the end, independently of `Eligible`. */
  function CountAddressed(rows: seq<Record>, key: string): nat
  {
    if |rows| == 0 then 0
    else CountAddressed(rows[..|rows| - 1], key)
         + (if HasAddress(rows[|rows| - 1], key) then 1 else 0)
  }

  /** Filtering distributes over concatenation: together with the one-row
      case this pins `Eligible` down as an order-preserving filter. */
  lemma {:induction false} EligibleAppend(a: seq<Record>, b: seq<Record>, key: string)
    ensures Eligible(a + b, key) == Eligible(a, key) + Eligible(b, key)
    decreases |a|
  {
    if |a| == 0 {
      assert a + b == b;
    } else {
      assert (a + b)[0] == a[0];
      assert (a + b)[1..] == a[1..] + b;
      EligibleAppend(a[1..], b, key);
    }
  }

  /** The number of eligible rows is the number of rows with an address. */
  lemma {:induction false} EligibleCount(rows: seq<Record>, key: string)
    ensures |Eligible(rows, key)| == CountAddressed(rows, key)
    decreases |rows|
  {
    if |rows| > 0 {
      var front := rows[..|rows| - 1];
      var last := rows[|rows| - 1];
      assert rows == front + [last];
      EligibleAppend(front, [last], key);
      EligibleCount(front, key);
      assert [last][1..] == [];
    }
  }

  /** The rows a campaign processes (`app.py`, lines 248-250). */
  function Recipients(rows: seq<Record>, key: string, testMode: bool): (r: seq<Record>)
    ensures |r| <= |rows|
    ensures testMode ==> |r| <= TestModeCap
    ensures forall x :: x in r ==> x in rows && HasAddress(x, key)
  {
    var e := Eligible(rows, key);
    if testMode && |e| > TestModeCap then e[..TestModeCap] else e
  }

  /** The processed rows are a prefix of the eligible rows: all of them, or
      in test mode the first min(3, eligible) of them. */
  lemma RecipientsShape(rows: seq<Record>, key: string, testMode: bool)
    ensures var e := Eligible(rows, key);
            var n := if testMode && CountAddressed(rows, key) > TestModeCap
                     then TestModeCap else CountAddressed(rows, key);
            |Recipients(rows, key, testMode)| == n
            && Recipients(rows, key, testMode) == e[..n]
  {
    EligibleCount(rows, key);
  }

  /** Every processed row has an address and has every column. */
  lemma RecipientsWellFormed(t: Table, key: string, testMode: bool)
    requires t.Valid()
    ensures forall x :: x in Recipients(t.rows, key, testMode) ==>
              HasAddress(x, key) && Conforms(x, t.columns)
  {
    var e := Eligible(t.rows, key);
    forall x | x in Recipients(t.rows, key, testMode)
      ensures HasAddress(x, key) && Conforms(x, t.columns)
    {
      assert x in e;
      var i :| 0 <= i < |t.rows| && t.rows[i] == x;
    }
  }

  /** The recipient filter as a loop over the rows followed by `head(3)`. */
  method SelectRecipients(rows: seq<Record>, key: string, testMode: bool)
    returns (selected: seq<Record>)
    ensures selected == Recipients(rows, key, testMode)
    ensures testMode ==> |selected| <= TestModeCap
    ensures forall x :: x in selected ==> x in rows && HasAddress(x, key)
  {
    selected := [];
    var i := 0;
    while i < |rows|
      invariant 0 <= i <= |rows|
      invariant selected == Eligible(rows[..i], key)
    {
      EligibleAppend(rows[..i], [rows[i]], key);
      assert rows[..i + 1] == rows[..i] + [rows[i]];
      selected := selected + (if HasAddress(rows[i], key) then [rows[i]] else []);
      i := i + 1;
    }
    assert rows[..i] == rows;
    if testMode && |selected| > TestModeCap {
      selected := selected[..TestModeCap];
    }
  }

  /** The "Emails to Send" figure as displayed (`app.py`, line 218): 3 in test mode,
      whatever the number of rows with an address. */
  function DisplayedSendCount(rows: seq<Record>, key: string, testMode: bool): (n: nat)
    ensures |Recipients(rows, key, testMode)| <= n
    ensures !testMode ==> n == |Recipients(rows, key, testMode)|
  {
    EligibleCount(rows, key);
    if testMode then TestModeCap else CountAddressed(rows, key)
  }

  /** The displayed figure overstates the number of emails a test run sends
      when fewer than three rows have an address. */
  lemma DisplayedCountOverstates()
    ensures var rows := [map["Email" := Str("a@x.org")]];
            DisplayedSendCount(rows, "Email", true) == 3
            && |Recipients(rows, "Email", true)| == 1
  {
    var rows := [map["Email" := Str("a@x.org")]];
    assert Eligible(rows[1..], "Email") == [];
  }

  /** The figure the display evidently intends: min(3, eligible) in test mode. */
  function IntendedSendCount(rows: seq<Record>, key: string, testMode: bool): (n: nat)
    ensures n == |Recipients(rows, key, testMode)|
    ensures testMode ==> n <= TestModeCap
    ensures n <= CountAddressed(rows, key)
  {
    EligibleCount(rows, key);
    var c := CountAddressed(rows, key);
    if testMode && c > TestModeCap then TestModeCap else c
  }
}
