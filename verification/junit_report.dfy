/**
 The JUnit report records the merger reads and writes, and the skip marker.

 The decoded records mirror the source's structs: a document holds suites, a
 suite holds cases, and a case is `{name, time, systemOut, failure, skipped}`.
 The `skipped` field is a string that is "" when the test ran; any other value
 means a `<skipped>` element was present, with the single space " " standing
 for an element that was present but empty.

 The element view (`CaseElement`) says what a report file holds before
 decoding: a `<skipped>` child is either absent or present with some text.
 How that child is read and written depends on the `SkipCodec`: the library's
 own handling, which is what the program does, or the marker's methods, which
 is what the comment on the type intends.
 */
module JUnitReport {

  // ---------------------------------------------------------------------------
  // The skip marker
  // ---------------------------------------------------------------------------

  type SkipReason = string

  /** The value that stands for a `<skipped>` element with no text. */
  const EmptySkip: SkipReason := " "

  /** `SkipReason.UnmarshalText`: the element's text, or the sentinel when that text is empty. */
  function UnmarshalText(text: string): (s: SkipReason)
    ensures s != ""
    ensures text == "" ==> s == EmptySkip
    ensures text != "" ==> s == text
  {
    if text == "" then EmptySkip else text
  }

  /** `SkipReason.MarshalText`: the sentinel becomes empty text; every other reason is written as is. */
  function MarshalText(s: SkipReason): (text: string)
    ensures s != EmptySkip ==> text == s
    ensures text == "" <==> s == "" || s == EmptySkip
  {
    if s == EmptySkip then "" else s
  }

  /** Decoding then encoding the text of a `<skipped>` element gives it back, except for a lone space. */
  lemma MarshalUnmarshal(text: string)
    ensures MarshalText(UnmarshalText(text)) == text <==> text != " "
  {
  }

  /** Encoding then decoding a skip reason gives it back, except for "" (which no element decodes to). */
  lemma UnmarshalMarshal(s: SkipReason)
    ensures UnmarshalText(MarshalText(s)) == s <==> s != ""
  {
  }

  // ---------------------------------------------------------------------------
  // Records
  // ---------------------------------------------------------------------------

  datatype TestCase = TestCase(name: string, time: string, systemOut: string, failure: string, skipped: SkipReason)

  datatype TestSuite = TestSuite(cases: seq<TestCase>)

  datatype TestSuites = TestSuites(suites: seq<TestSuite>)

  /** A case that actually ran: the source tests `Skipped == ""`. */
  predicate Ran(c: TestCase) {
    c.skipped == ""
  }

  /** All cases of a sequence of suites, suite by suite, in document order. */
  function AllCases(suites: seq<TestSuite>): (cs: seq<TestCase>)
    ensures forall i, c :: 0 <= i < |suites| && c in suites[i].cases ==> c in cs
    ensures |suites| == 1 ==> cs == suites[0].cases
    decreases |suites|
  {
    if |suites| == 0 then []
    else
      var rest := AllCases(suites[1..]);
      assert forall i :: 1 <= i < |suites| ==> suites[i] == suites[1..][i - 1];
      suites[0].cases + rest
  }

  /** A case is visited exactly when it belongs to one of the suites. */
  lemma {:induction false} AllCasesMembers(suites: seq<TestSuite>)
    ensures forall c :: c in AllCases(suites) <==> exists i :: 0 <= i < |suites| && c in suites[i].cases
    decreases |suites|
  {
    if |suites| > 0 {
      AllCasesMembers(suites[1..]);
      assert forall i :: 1 <= i < |suites| ==> suites[i] == suites[1..][i - 1];
      forall c | c in AllCases(suites)
        ensures exists i :: 0 <= i < |suites| && c in suites[i].cases
      {
        if c !in suites[0].cases {
          var j :| 0 <= j < |suites[1..]| && c in suites[1..][j].cases;
          assert c in suites[j + 1].cases;
        }
      }
    }
  }

  /** The cases of consecutive suites are the cases of the first ones followed by those of the others. */
  lemma {:induction false} AllCasesAppend(a: seq<TestSuite>, b: seq<TestSuite>)
    ensures AllCases(a + b) == AllCases(a) + AllCases(b)
    decreases |a|
  {
    if |a| > 0 {
      assert (a + b)[0] == a[0];
      assert (a + b)[1..] == a[1..] + b;
      AllCasesAppend(a[1..], b);
    } else {
      assert a + b == b;
    }
  }

  // ---------------------------------------------------------------------------
  // The element view and its codec
  // ---------------------------------------------------------------------------

  /** A `<skipped>` child of a `<testcase>` element. */
  datatype SkipElement = Absent | Present(text: string)

  datatype CaseElement = CaseElement(name: string, time: string, systemOut: string, failure: string, skipped: SkipElement)

  datatype SuiteElement = SuiteElement(cases: seq<CaseElement>)

  datatype Document = Document(suites: seq<SuiteElement>)

  /** Reading a `<skipped>` child through the marker's text decoder: present elements never read as "". */
  function DecodeSkip(e: SkipElement): (s: SkipReason)
    ensures s == "" <==> e.Absent?
  {
    match e
    case Absent => ""
    case Present(text) => UnmarshalText(text)
  }

  /** Writing a skip marker with `omitempty` and the marker's text encoder. */
  function EncodeSkip(s: SkipReason): (e: SkipElement)
    ensures e.Absent? <==> s == ""
  {
    if s == "" then Absent else Present(MarshalText(s))
  }

  /** The three skip states survive writing and reading back. */
  lemma DecodeEncodeSkip(s: SkipReason)
    ensures DecodeSkip(EncodeSkip(s)) == s
  {
  }

  /** An element survives reading and writing back, unless its text is a lone space (read as the sentinel). */
  lemma EncodeDecodeSkip(e: SkipElement)
    ensures EncodeSkip(DecodeSkip(e)) == e <==> e != Present(" ")
  {
  }

  // ---------------------------------------------------------------------------
  // The skip decoding as the source actually behaves
  // ---------------------------------------------------------------------------

  /**
   What `encoding/xml` stores in the `Skipped` field. `UnmarshalText` and
   `MarshalText` return no `error`, so `SkipReason` implements neither
   `encoding.TextUnmarshaler` nor `encoding.TextMarshaler`, and the library
   copies the element's text into the string directly.
   */
  function DecodeSkipAsWritten(e: SkipElement): (s: SkipReason)
    ensures e.Present? ==> s == e.text
  {
    match e
    case Absent => ""
    case Present(text) => text
  }

  /** What `encoding/xml` writes for the `Skipped` field: `omitempty` drops "", any other string is written as is. */
  function EncodeSkipAsWritten(s: SkipReason): (e: SkipElement)
    ensures e.Absent? <==> s == ""
    ensures e.Present? ==> e.text == s
  {
    if s == "" then Absent else Present(s)
  }

  /**
   With the library's own handling, an empty `<skipped/>` reads exactly like no
   element at all: the case counts as having run, and the element is dropped
   when the merged report is written.
   */
  lemma EmptySkipLostAsWritten()
    ensures DecodeSkipAsWritten(Present("")) == DecodeSkipAsWritten(Absent)
    ensures EncodeSkipAsWritten(DecodeSkipAsWritten(Present(""))) == Absent
    ensures DecodeSkip(Present("")) != DecodeSkip(Absent)
    ensures EncodeSkip(DecodeSkip(Present(""))) == Present("")
  {
  }

  // ---------------------------------------------------------------------------
  // Cases and documents, under either codec
  // ---------------------------------------------------------------------------

  /**
   Which handling the `Skipped` field gets: `Library` is the program as written
   (the library copies the text, so an empty element reads as ""), `Marker` is
   the marker's own `UnmarshalText`/`MarshalText`, as the comment on the type
   intends.
   */
  datatype SkipCodec = Library | Marker

  function ReadSkip(codec: SkipCodec, e: SkipElement): (s: SkipReason)
    ensures s == "" <==> e.Absent? || (codec.Library? && e == Present(""))
    ensures e.Present? && e.text != "" ==> s == e.text
  {
    match codec
    case Library => DecodeSkipAsWritten(e)
    case Marker => DecodeSkip(e)
  }

  function WriteSkip(codec: SkipCodec, s: SkipReason): (e: SkipElement)
    ensures e.Absent? <==> s == ""
    ensures s != "" && s != EmptySkip ==> e == Present(s)
  {
    match codec
    case Library => EncodeSkipAsWritten(s)
    case Marker => EncodeSkip(s)
  }

  /** Under either codec, a skip reason is written so that it reads back as itself. */
  lemma WriteReadSkip(codec: SkipCodec, s: SkipReason)
    ensures ReadSkip(codec, WriteSkip(codec, s)) == s
  {
    if codec.Marker? {
      DecodeEncodeSkip(s);
    }
  }

  /** One `<testcase>` element decoded into the `TestCase` struct. */
  function DecodeCase(codec: SkipCodec, e: CaseElement): (c: TestCase)
    ensures c.name == e.name && c.time == e.time && c.systemOut == e.systemOut && c.failure == e.failure
    ensures Ran(c) <==> e.skipped.Absent? || (codec.Library? && e.skipped == Present(""))
  {
    TestCase(e.name, e.time, e.systemOut, e.failure, ReadSkip(codec, e.skipped))
  }

  function EncodeCase(codec: SkipCodec, c: TestCase): (e: CaseElement)
    ensures e.name == c.name && e.time == c.time && e.systemOut == c.systemOut && e.failure == c.failure
    ensures e.skipped.Absent? <==> Ran(c)
  {
    CaseElement(c.name, c.time, c.systemOut, c.failure, WriteSkip(codec, c.skipped))
  }

  /** Under either codec, every case is written so that it reads back as itself. */
  lemma DecodeEncodeCase(codec: SkipCodec, c: TestCase)
    ensures DecodeCase(codec, EncodeCase(codec, c)) == c
  {
    WriteReadSkip(codec, c.skipped);
  }

  /** `xml.Unmarshal` into `TestSuites`, once the document is well-formed. */
  function DecodeDocument(codec: SkipCodec, d: Document): (t: TestSuites)
    ensures |t.suites| == |d.suites|
    ensures forall i :: 0 <= i < |d.suites| ==> |t.suites[i].cases| == |d.suites[i].cases|
    ensures forall i, j :: 0 <= i < |d.suites| && 0 <= j < |d.suites[i].cases| ==>
              t.suites[i].cases[j] == DecodeCase(codec, d.suites[i].cases[j])
  {
    TestSuites(seq(|d.suites|, i requires 0 <= i < |d.suites| =>
      TestSuite(seq(|d.suites[i].cases|, j requires 0 <= j < |d.suites[i].cases| => DecodeCase(codec, d.suites[i].cases[j])))))
  }
}
