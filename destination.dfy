/** Where a message's attachments go: `root/address/date`, the date written with the
    layout "2006-01-02T03-04-05" (main.go line 153). The same path is the mark that
    the message was processed. */
module DestinationResolver {

  import opened TimeFormat

  /** `fmt.Sprintf("%s/%s/%s", root, address, date.Format(...))`. */
  function Destination(root: string, address: string, date: Time): string
  {
    root + "/" + address + "/" + Format(date)
  }

  lemma NotSlashInLast(y: string, g: string, i: int)
    requires |y| < i < |y| + 1 + |g| && '/' !in g
    ensures (y + "/" + g)[i] != '/'
  {
    assert (y + "/" + g)[i] == g[i - |y| - 1];
  }

  /** A path ending in a slash-free element splits uniquely at its last slash. */
  lemma LastElement(x: string, f: string, y: string, g: string)
    requires x + "/" + f == y + "/" + g
    requires '/' !in f && '/' !in g
    ensures x == y && f == g
  {
    var s := x + "/" + f;
    if |f| < |g| {
      NotSlashInLast(y, g, |x|);
    } else if |g| < |f| {
      NotSlashInLast(x, f, |y|);
    }
    assert x == s[..|x|] && y == s[..|y|];
    assert f == s[|x| + 1..] && g == s[|y| + 1..];
  }

  /** Two messages from one root land in the same directory exactly when they have
      the same sender address and dates that read the same on a 12-hour clock face:
      distinct senders never collide, but dates twelve hours apart do. */
  lemma {:induction false} DestinationCollision(root: string, a: string, t: Time, b: string, u: Time)
    requires Valid(t) && Valid(u)
    ensures Destination(root, a, t) == Destination(root, b, u) <==> a == b && SameReading(t, u)
  {
    FormatCollidesExactlyOnSameReading(t, u);
    if Destination(root, a, t) == Destination(root, b, u) {
      NoSlash(t);
      NoSlash(u);
      LastElement(root + "/" + a, Format(t), root + "/" + b, Format(u));
      Peel(root + "/", a, root + "/", b);
    }
  }

  /** The sharp edge of the "03" layout element: a message sent at hour `h` and one
      sent twelve hours later by the same sender share a directory. Once the first
      one met has left that directory behind (an attachment got past `MkdirAll`),
      the second is skipped as already processed
      (`FolderWalker.TwelveHoursLaterSkipped`). */
  lemma TwelveHoursApart(root: string, address: string, t: Time)
    requires t.hour < 12
    ensures Destination(root, address, t) == Destination(root, address, t.(hour := t.hour + 12))
  {
    assert Hour12(t.hour) == Hour12(t.hour + 12);
    assert ClockText(t) == ClockText(t.(hour := t.hour + 12));
  }

  /** The directory of a message from a@example.com dated 2024-01-02 03:04:05. */
  lemma ExampleDestination(root: string)
    ensures Destination(root, "a@example.com", Time(2024, 1, 2, 3, 4, 5))
         == root + "/" + "a@example.com" + "/" + "2024-01-02T03-04-05"
  {
    ExampleFormat();
  }

  lemma ExampleFormat()
    ensures Format(Time(2024, 1, 2, 3, 4, 5)) == "2024-01-02T03-04-05"
  {
    Year2024();
    ExampleClock();
  }

  lemma ExampleClock()
    ensures ClockText(Time(2024, 1, 2, 3, 4, 5)) == "-01-02T03-04-05"
  {
    OneDigitField('-', 1);
    OneDigitField('-', 2);
    OneDigitField('T', 3);
    OneDigitField('-', 4);
    OneDigitField('-', 5);
  }

  lemma Year2024()
    ensures YearText(2024) == "2024"
  {
    assert Decimal(20) == "20";
    assert Decimal(202) == "202";
    assert Decimal(2024) == "2024";
    assert Zeros(0) == "";
  }

  lemma OneDigitField(lead: char, n: nat)
    requires n < 10
    ensures Field(lead, n) == [lead, '0', DigitChar(n)]
  {
    assert Zeros(1) == "0";
  }
}
