/**
 * logger.go: the `Printf`-backed logger. Log lines are a message followed by
 * key/value pairs laid out logfmt-style; time values among them are rendered
 * as RFC 3339 text first. `Info` is emitted only by a verbose logger, `Error`
 * always.
 *
 * The `Printf` sink is a `Printer` object whose ghost `records` list every
 * (format, arguments) pair it was handed.
 */
module Logging {
  import opened Civil

  /** The dynamically typed values passed to the logger (Go `interface{}`). */
  datatype Value = Str(s: string) | Int(n: int) | Time(t: DateTime) | Error(e: string)

  /** One call of `Printf`. */
  datatype Record = Record(format: string, args: seq<Value>)

  /** A `Printf`-style sink (for instance Go's `log.Logger`). */
  class Printer {
    ghost var records: seq<Record>

    constructor ()
      ensures records == []
    {
      records := [];
    }

    method Printf(format: string, args: seq<Value>)
      modifies this
      ensures records == old(records) + [Record(format, args)]
    {
      records := records + [Record(format, args)];
    }
  }

  // ---------------------------------------------------------------------------
  // formatString

  /** Go's integer division `a / b` for `b > 0`, which truncates toward zero. */
  function GoDiv(a: int, b: int): int
    requires b > 0
  {
    if a >= 0 then a / b else -((-a) / b)
  }

  /** The number of complete key/value pairs among `n` items (`GoDiv(n, 2)` when positive, else 0). */
  function Pairs(n: int): nat {
    if n <= 0 then 0 else n / 2
  }

  /** `k` copies of `s`. */
  function Repeat(k: nat, s: string): (r: seq<string>)
    ensures |r| == k && forall i :: 0 <= i < k ==> r[i] == s
  {
    seq(k, _ => s)
  }

  /** The parts separated by `sep`, as Go's `strings.Join`. */
  function Join(parts: seq<string>, sep: string): string {
    if |parts| == 0 then ""
    else if |parts| == 1 then parts[0]
    else Join(parts[..|parts| - 1], sep) + sep + parts[|parts| - 1]
  }

  /** The logfmt-like layout for a message and `n` items: `"%s"`, then `", "` and the joined pairs when `n > 0`. */
  function Layout(n: int): string {
    "%s" + (if n > 0 then ", " else "") + Join(Repeat(Pairs(n), "%v=%v"), ", ")
  }

  /** logger.go `formatString`: the format string for a message and `n` key/value items. */
  method FormatString(n: int) returns (r: string)
    ensures r == Layout(n)
  {
    r := "%s";
    if n > 0 {
      r := r + ", ";
    }
    ghost var prefix := r;
    var i := 0;
    while i < GoDiv(n, 2)
      invariant 0 <= i <= Pairs(n)
      invariant r == prefix + Join(Repeat(i, "%v=%v"), ", ")
    {
      JoinRepeatSnoc(i, "%v=%v", ", ");
      if i > 0 {
        r := r + ", ";
      }
      r := r + "%v=%v";
      i := i + 1;
    }
  }

  /** Joining one more copy adds a separator (unless it is the first) and the copy. */
  lemma JoinRepeatSnoc(i: nat, s: string, sep: string)
    ensures Join(Repeat(i + 1, s), sep) == Join(Repeat(i, s), sep) + (if i > 0 then sep else "") + s
  {
    assert Repeat(i + 1, s)[..i] == Repeat(i, s);
  }

  /** The number of occurrences of `c` in `s`. */
  function Count(s: string, c: char): nat {
    multiset(s)[c]
  }

  /** Each pair placeholder holds two `%` verbs and the separators none. */
  lemma {:induction false} JoinedPairsVerbs(k: nat)
    ensures Count(Join(Repeat(k, "%v=%v"), ", "), '%') == 2 * k
  {
    if k > 0 {
      JoinedPairsVerbs(k - 1);
      JoinRepeatSnoc(k - 1, "%v=%v", ", ");
      var prev := Join(Repeat(k - 1, "%v=%v"), ", ");
      var sep := if k - 1 > 0 then ", " else "";
      assert Count(sep, '%') == 0;
      assert Count("%v=%v", '%') == 2;
      assert multiset(prev + sep + "%v=%v") == multiset(prev) + multiset(sep) + multiset("%v=%v");
    }
  }

  /** `formatString(n)` holds one verb for the message and two per complete pair. */
  lemma LayoutVerbs(n: int)
    ensures Count(Layout(n), '%') == 1 + 2 * Pairs(n)
  {
    var head := "%s" + (if n > 0 then ", " else "");
    assert Count(head, '%') == 1;
    JoinedPairsVerbs(Pairs(n));
    assert multiset(Layout(n)) == multiset(head) + multiset(Join(Repeat(Pairs(n), "%v=%v"), ", "));
  }

  /** With no items the format is just the message. */
  lemma LayoutOfNone()
    ensures Layout(0) == "%s"
  {
  }

  /**
   * For an even number of items there is exactly one verb per argument (the
   * message and the items); for an odd number the last item has no verb.
   */
  lemma LayoutMatchesArguments(n: nat)
    ensures n % 2 == 0 ==> Count(Layout(n), '%') == n + 1
    ensures n % 2 == 1 ==> Count(Layout(n), '%') == n
  {
    LayoutVerbs(n);
  }

  // ---------------------------------------------------------------------------
  // formatTimes

  /** A time value becomes its RFC 3339 text (section 5.6 of RFC 3339); any other value stays. */
  function Render(v: Value, rfc3339: DateTime -> string): Value {
    if v.Time? then Str(rfc3339(v.t)) else v
  }

  /** Every item rendered, in order. */
  function Rendered(items: seq<Value>, rfc3339: DateTime -> string): seq<Value> {
    if |items| == 0 then []
    else Rendered(items[..|items| - 1], rfc3339) + [Render(items[|items| - 1], rfc3339)]
  }

  /**
   * logger.go `formatTimes`. Go's `time.Format` is not part of this model: the
   * RFC 3339 rendering is the parameter `rfc3339`.
   */
  method FormatTimes(items: seq<Value>, rfc3339: DateTime -> string) returns (r: seq<Value>)
    ensures r == Rendered(items, rfc3339)
  {
    r := [];
    for k := 0 to |items|
      invariant r == Rendered(items[..k], rfc3339)
    {
      var arg := items[k];
      if arg.Time? {
        arg := Str(rfc3339(arg.t));
      }
      assert items[..k + 1][..k] == items[..k];
      r := r + [arg];
    }
    assert items[..|items|] == items;
  }

  /** Rendering keeps length and order, replaces exactly the time values, and leaves no time value behind. */
  lemma {:induction false} RenderedElementwise(items: seq<Value>, rfc3339: DateTime -> string)
    ensures |Rendered(items, rfc3339)| == |items|
    ensures forall i :: 0 <= i < |items| ==>
              Rendered(items, rfc3339)[i] == if items[i].Time? then Str(rfc3339(items[i].t)) else items[i]
    ensures forall i :: 0 <= i < |items| ==> !Rendered(items, rfc3339)[i].Time?
  {
    if |items| > 0 {
      RenderedElementwise(items[..|items| - 1], rfc3339);
    }
  }

  // ---------------------------------------------------------------------------
  // printfLogger

  /** logger.go `printfLogger`: the sink, and whether `Info` messages are written. */
  datatype Logger = Logger(logger: Printer, logInfo: bool)
  {
    /** logger.go `printfLogger.Info`: written only by a verbose logger. */
    method Info(msg: string, keysAndValues: seq<Value>, rfc3339: DateTime -> string)
      modifies logger
      ensures logInfo ==>
                logger.records == old(logger.records) +
                  [Record(Layout(|keysAndValues|), [Str(msg)] + Rendered(keysAndValues, rfc3339))]
      ensures !logInfo ==> logger.records == old(logger.records)
    {
      if logInfo {
        var items := FormatTimes(keysAndValues, rfc3339);
        RenderedElementwise(keysAndValues, rfc3339);
        var format := FormatString(|items|);
        logger.Printf(format, [Str(msg)] + items);
      }
    }

    /** logger.go `printfLogger.Error`: always written, with the error as the first pair. */
    method Error(err: string, msg: string, keysAndValues: seq<Value>, rfc3339: DateTime -> string)
      modifies logger
      ensures logger.records == old(logger.records) +
                [Record(Layout(|keysAndValues| + 2),
                        [Str(msg), Str("error"), Value.Error(err)] + Rendered(keysAndValues, rfc3339))]
    {
      var items := FormatTimes(keysAndValues, rfc3339);
      RenderedElementwise(keysAndValues, rfc3339);
      var format := FormatString(|items| + 2);
      logger.Printf(format, [Str(msg), Str("error"), Value.Error(err)] + items);
    }
  }

  /** logger.go `PrintfLogger`: a logger that writes errors only. */
  function PrintfLogger(l: Printer): (r: Logger)
    ensures r.logger == l && !r.logInfo
  {
    Logger(l, false)
  }

  /** logger.go `VerbosePrintfLogger`: a logger that writes everything. */
  function VerbosePrintfLogger(l: Printer): (r: Logger)
    ensures r.logger == l && r.logInfo
  {
    Logger(l, true)
  }

  /** One key/value pair is laid out as `"%s, %v=%v"`. */
  lemma LayoutOfOnePair()
    ensures Layout(2) == "%s, %v=%v"
  {
    JoinRepeatSnoc(0, "%v=%v", ", ");
  }
}
