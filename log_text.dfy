// The text of a log entry: decimal rendering of integers as std::to_string
// writes them, and the NOTIFY line that local delivery appends.

module LogText {
  import opened ProcessTypes

  function Digit(d: nat): (r: char)
    requires d < 10
  {
    (48 + d) as char
  }

  function DigitValue(c: char): (r: int)
  {
    c as int - 48
  }

  /** Decimal digits of `n`, most significant first, without leading zeros. */
  function NatToString(n: nat): (s: string)
    ensures |s| > 0 && s[0] != '-'
    decreases n
  {
    if n < 10 then [Digit(n)] else NatToString(n / 10) + [Digit(n % 10)]
  }

  /** `std::to_string` of an int: a minus sign for negative values, then the digits. */
  function IntToString(i: int): (r: string)
  {
    if i < 0 then "-" + NatToString(-i) else NatToString(i)
  }

  function DigitsValue(s: string): (r: int)
  {
    if s == [] then 0 else DigitsValue(s[..|s| - 1]) * 10 + DigitValue(s[|s| - 1])
  }

  /** Reads back a decimal integer with an optional leading minus sign. */
  function ParseInt(s: string): (r: int)
  {
    if |s| > 0 && s[0] == '-' then -DigitsValue(s[1..]) else DigitsValue(s)
  }

  lemma {:induction false} NatToStringRoundTrip(n: nat)
    ensures DigitsValue(NatToString(n)) == n
    decreases n
  {
    if n >= 10 {
      NatToStringRoundTrip(n / 10);
      var s := NatToString(n / 10) + [Digit(n % 10)];
      assert s[..|s| - 1] == NatToString(n / 10);
    }
  }

  /** The number written into a log line reads back as the same number. */
  lemma IntToStringRoundTrip(i: int)
    ensures ParseInt(IntToString(i)) == i
  {
    if i < 0 {
      NatToStringRoundTrip(-i);
      assert ("-" + NatToString(-i))[1..] == NatToString(-i);
    } else {
      NatToStringRoundTrip(i);
    }
  }

  /** The log line for one locally delivered operation: `NOTIFY(var,val) ts=T`. */
  function NotifyEntry(o: SetOperationFramework): (r: string)
  {
    "NOTIFY(" + o.variable + "," + IntToString(o.val) + ") ts=" + IntToString(o.ts)
  }

  /** The log lines for a sequence of operations, in the same order. */
  function NotifyEntries(ops: seq<SetOperationFramework>): (r: seq<string>)
    ensures |r| == |ops|
  {
    if ops == [] then [] else NotifyEntries(ops[..|ops| - 1]) + [NotifyEntry(ops[|ops| - 1])]
  }

  /**
   * The k-th new log line renders the k-th operation: it starts with
   * `NOTIFY(` and the operation's variable, and the text after its last
   * `ts=` reads back as the operation's timestamp.
   */
  lemma {:induction false} NotifyEntriesAt(ops: seq<SetOperationFramework>, k: nat)
    requires k < |ops|
    ensures NotifyEntries(ops)[k] == NotifyEntry(ops[k])
    ensures var line, head := NotifyEntries(ops)[k], "NOTIFY(" + ops[k].variable + ",";
      |head| <= |line| && line[..|head|] == head
    ensures var line, tail := NotifyEntries(ops)[k], IntToString(ops[k].ts);
      |tail| <= |line| && ParseInt(line[|line| - |tail|..]) == ops[k].ts
  {
    if k < |ops| - 1 {
      NotifyEntriesAt(ops[..|ops| - 1], k);
    }
    NotifyEntryParts(ops[k]);
  }

  /** A NOTIFY line starts with its variable and ends with its timestamp text, which reads back. */
  lemma NotifyEntryParts(o: SetOperationFramework)
    ensures var line, head := NotifyEntry(o), "NOTIFY(" + o.variable + ",";
      |head| <= |line| && line[..|head|] == head
    ensures var line, tail := NotifyEntry(o), IntToString(o.ts);
      |tail| <= |line| && ParseInt(line[|line| - |tail|..]) == o.ts
  {
    var head := "NOTIFY(" + o.variable + ",";
    var middle := IntToString(o.val) + ") ts=";
    var tail := IntToString(o.ts);
    assert NotifyEntry(o) == head + middle + tail;
    assert (head + middle + tail)[..|head|] == head;
    assert (head + middle + tail)[|head + middle|..] == tail;
    IntToStringRoundTrip(o.ts);
  }
}
