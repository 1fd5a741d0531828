/** The text that `update_validation` splices into its UPDATE statement:
    each value is wrapped in single quotes with no escaping, and the ids
    are joined with commas into the body of the IN list. A minimal reader
    of single-quoted literals stands for how the warehouse reads that text
    back: a literal runs from an opening quote to the next quote. */
module SqlText {
  import opened Wrappers

  const Quote: char := '\''
  const Comma: char := ','

  /** `f"'{s}'"`: the value between two quotes, nothing escaped. */
  function Quoted(s: string): string {
    [Quote] + s + [Quote]
  }

  /** The list of quoted ids, one per id and in the same order. */
  function FormatIds(ids: seq<string>): (r: seq<string>)
    ensures |r| == |ids|
    ensures forall i :: 0 <= i < |ids| ==> r[i] == Quoted(ids[i])
  {
    if ids == [] then [] else [Quoted(ids[0])] + FormatIds(ids[1..])
  }

  /** `','.join(parts)`. */
  function JoinComma(parts: seq<string>): string {
    if parts == [] then ""
    else if |parts| == 1 then parts[0]
    else parts[0] + [Comma] + JoinComma(parts[1..])
  }

  /** The body of `IN (...)`. */
  function InList(ids: seq<string>): string {
    JoinComma(FormatIds(ids))
  }

  /** A value the quoting cannot corrupt. */
  predicate Plain(s: string) {
    Quote !in s
  }

  /** Reads the rest of a literal whose opening quote is already consumed:
      its content up to the next quote, and the text after that quote. */
  function ReadBody(s: string): (r: Option<(string, string)>)
    ensures r.Some? ==> |r.value.0| + 1 + |r.value.1| == |s|
  {
    if s == [] then None
    else if s[0] == Quote then Some(([], s[1..]))
    else
      match ReadBody(s[1..])
      case None => None
      case Some((body, rest)) => Some(([s[0]] + body, rest))
  }

  /** Reads one quoted literal at the head of `s`. */
  function ReadLiteral(s: string): (r: Option<(string, string)>)
    ensures r.Some? ==> |r.value.0| + 2 + |r.value.1| == |s|
  {
    if s == [] || s[0] != Quote then None else ReadBody(s[1..])
  }

  /** Reads a text that must be exactly one quoted literal. */
  function ReadSingle(s: string): Option<string> {
    match ReadLiteral(s)
    case Some((v, rest)) => if rest == [] then Some(v) else None
    case None => None
  }

  /** Reads a text that must be a comma-separated list of quoted literals. */
  function ReadList(s: string): Option<seq<string>>
    decreases |s|
  {
    match ReadLiteral(s)
    case None => None
    case Some((v, rest)) =>
      if rest == [] then Some([v])
      else if rest[0] != Comma then None
      else
        match ReadList(rest[1..])
        case None => None
        case Some(vs) => Some([v] + vs)
  }

  /** The body reader stops at the first quote, whatever precedes it. */
  lemma {:induction false} ReadBodyStopsAtQuote(s: string, j: nat)
    requires j < |s| && s[j] == Quote && Quote !in s[..j]
    ensures ReadBody(s) == Some((s[..j], s[j + 1..]))
  {
    if j > 0 {
      assert s[1..][..j - 1] == s[1..j];
      assert Quote !in s[1..][..j - 1];
      ReadBodyStopsAtQuote(s[1..], j - 1);
      assert [s[0]] + s[1..j] == s[..j];
    }
  }

  /** A quoted plain value reads back as itself, followed by what came after. */
  lemma QuotedReadsBack(v: string, rest: string)
    requires Plain(v)
    ensures ReadLiteral(Quoted(v) + rest) == Some((v, rest))
  {
    var s := (Quoted(v) + rest)[1..];
    assert s == v + [Quote] + rest;
    assert s[..|v|] == v;
    ReadBodyStopsAtQuote(s, |v|);
    assert s[|v| + 1..] == rest;
  }

  /** Where the first quote of `s` stands. */
  function FirstQuote(s: string): (j: nat)
    requires !Plain(s)
    ensures j < |s| && s[j] == Quote && Plain(s[..j])
  {
    if s[0] == Quote then 0
    else
      var j := FirstQuote(s[1..]);
      assert s[..j + 1] == [s[0]] + s[1..][..j];
      j + 1
  }

  /** A quoted value holding a quote reads back as a strictly shorter value. */
  lemma QuotedBreaksEarly(v: string, rest: string)
    requires !Plain(v)
    ensures ReadLiteral(Quoted(v) + rest).Some?
    ensures |ReadLiteral(Quoted(v) + rest).value.0| < |v|
  {
    var s := (Quoted(v) + rest)[1..];
    assert s == v + [Quote] + rest;
    var j := FirstQuote(v);
    assert s[..j] == v[..j];
    ReadBodyStopsAtQuote(s, j);
  }

  /** The SET value `'{user}'` (or `'{current_time}'`) reads back as the
      value exactly when the value holds no quote. */
  lemma SingleRoundTrip(v: string)
    ensures ReadSingle(Quoted(v)) == Some(v) <==> Plain(v)
  {
    if Plain(v) {
      QuotedReadsBack(v, []);
      assert Quoted(v) + [] == Quoted(v);
    } else {
      QuotedBreaksEarly(v, []);
      assert Quoted(v) + [] == Quoted(v);
    }
  }

  lemma InListUnfold(ids: seq<string>)
    requires |ids| > 1
    ensures InList(ids) == Quoted(ids[0]) + ([Comma] + InList(ids[1..]))
  {
    assert FormatIds(ids)[1..] == FormatIds(ids[1..]);
  }

  /** Reading a plain literal followed by a comma continues with the rest. */
  lemma ReadListStep(v: string, more: string)
    requires Plain(v)
    ensures ReadList(Quoted(v) + ([Comma] + more))
         == match ReadList(more) case None => None case Some(vs) => Some([v] + vs)
  {
    QuotedReadsBack(v, [Comma] + more);
    assert ([Comma] + more)[1..] == more;
  }

  lemma {:induction false} InListReadsBack(ids: seq<string>)
    requires ids != [] && forall i :: 0 <= i < |ids| ==> Plain(ids[i])
    ensures ReadList(InList(ids)) == Some(ids)
  {
    if |ids| == 1 {
      QuotedReadsBack(ids[0], []);
      assert Quoted(ids[0]) + [] == InList(ids);
      assert ReadLiteral(InList(ids)) == Some((ids[0], []));
      assert [ids[0]] == ids;
    } else {
      InListUnfold(ids);
      InListReadsBack(ids[1..]);
      ReadListStep(ids[0], InList(ids[1..]));
      assert [ids[0]] + ids[1..] == ids;
    }
  }

  lemma {:induction false} InListQuoteBreaks(ids: seq<string>, k: nat)
    requires k < |ids| && !Plain(ids[k])
    ensures ReadList(InList(ids)) != Some(ids)
  {
    if k == 0 {
      if |ids| == 1 {
        QuotedBreaksEarly(ids[0], []);
        assert Quoted(ids[0]) + [] == InList(ids);
      } else {
        InListUnfold(ids);
        QuotedBreaksEarly(ids[0], [Comma] + InList(ids[1..]));
      }
    } else {
      InListUnfold(ids);
      InListQuoteBreaks(ids[1..], k - 1);
      if Plain(ids[0]) {
        ReadListStep(ids[0], InList(ids[1..]));
      } else {
        InListQuoteBreaks(ids, 0);
      }
    }
  }

  /** The IN list reads back as exactly `ids`, entry by entry and in order,
      precisely when no id holds a quote. */
  lemma InListRoundTrip(ids: seq<string>)
    requires ids != []
    ensures ReadList(InList(ids)) == Some(ids) <==> forall i :: 0 <= i < |ids| ==> Plain(ids[i])
  {
    if forall i :: 0 <= i < |ids| ==> Plain(ids[i]) {
      InListReadsBack(ids);
    } else {
      var k :| 0 <= k < |ids| && !Plain(ids[k]);
      InListQuoteBreaks(ids, k);
    }
  }

  /** Because nothing is escaped, one id holding `','` is read as two ids. */
  lemma QuoteInIdSplitsIt()
    ensures InList(["a','b"]) == InList(["a", "b"])
    ensures ReadList(InList(["a','b"])) == Some(["a", "b"])
  {
    InListReadsBack(["a", "b"]);
  }
}
