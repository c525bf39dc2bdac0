/** What the shown list holds and in which order, read off the messages themselves. */
module FeedView {
  import opened Common
  import opened Sorting
  import opened Feed

  // ---------------------------------------------------------------------------
  // The number a message is placed by
  // ---------------------------------------------------------------------------

  /** A number as it is written: in decimal, without leading zeros. */
  function Text(n: nat): (s: string)
    ensures s != ""
  {
    var last := [('0' as int + n % 10) as char];
    if n < 10 then last else Text(n / 10) + last
  }

  function Zeros(k: nat): string {
    seq(k, _ => '0')
  }

  /** The id names a row of the log. */
  ghost predicate IsRow(m: Message, k: nat, n: nat) {
    m.id == "mls:" + Zeros(k) + Text(n)
  }

  /**
    The number a message is placed by: the row its id names, else its safe
    sequence number, else the greatest safe integer.
   */
  ghost predicate Placed(m: Message, n: int) {
    if exists k: nat, row: nat :: IsRow(m, k, row) then n >= 0 && exists k: nat :: IsRow(m, k, n)
    else if m.serverSeq.Some? && -9007199254740991 <= m.serverSeq.value <= 9007199254740991 then n == m.serverSeq.value
    else n == 9007199254740991
  }

  lemma NextDigit(s: string, c: char)
    requires AllDigits(s) && '0' <= c <= '9'
    ensures AllDigits(s + [c]) && Number(s + [c]) == 10 * Number(s) + (c - '0') as nat
  {
    assert (s + [c])[..|s|] == s;
  }

  lemma {:induction false} NumberOfZeros(k: nat)
    ensures AllDigits(Zeros(k)) && Number(Zeros(k)) == 0
  {
    if k > 0 {
      NumberOfZeros(k - 1);
      NextDigit(Zeros(k - 1), '0');
      assert Zeros(k) == Zeros(k - 1) + ['0'];
    }
  }

  lemma {:induction false} NumberOfText(k: nat, n: nat)
    ensures AllDigits(Zeros(k) + Text(n)) && Number(Zeros(k) + Text(n)) == n
  {
    var last := ('0' as int + n % 10) as char;
    if n < 10 {
      NumberOfZeros(k);
      NextDigit(Zeros(k), last);
    } else {
      NumberOfText(k, n / 10);
      NextDigit(Zeros(k) + Text(n / 10), last);
      assert Zeros(k) + Text(n) == Zeros(k) + Text(n / 10) + [last];
    }
  }

  lemma TextOfNext(n: nat, c: char)
    requires '0' <= c <= '9'
    ensures Text(10 * n + (c - '0') as nat) == (if n == 0 then "" else Text(n)) + [c]
  {
    var next := 10 * n + (c - '0') as nat;
    assert next / 10 == n && next % 10 == (c - '0') as nat;
  }

  /** Every row of digits is a number with leading zeros. */
  lemma {:induction false} DigitsAreText(s: string) returns (k: nat)
    requires s != "" && AllDigits(s)
    ensures s == Zeros(k) + Text(Number(s))
  {
    var n := |s| - 1;
    var front := s[..n];
    assert s == front + [s[n]];
    NextDigit(front, s[n]);
    TextOfNext(Number(front), s[n]);
    if n == 0 {
      k := 0;
    } else {
      k := DigitsAreText(front);
      if Number(front) == 0 {
        k := k + 1;
        assert Text(0) == "0" && Zeros(k) == Zeros(k - 1) + "0";
      }
    }
  }

  lemma RowOf(m: Message, digits: string)
    requires m.id == "mls:" + digits && digits != "" && AllDigits(digits)
    ensures Sequence(m) == Number(digits)
  {
    assert m.id[4..] == digits;
  }

  lemma RowIs(m: Message, k: nat, n: nat)
    requires IsRow(m, k, n)
    ensures Sequence(m) == n
  {
    var digits := Zeros(k) + Text(n);
    NumberOfText(k, n);
    assert m.id == "mls:" + digits;
    RowOf(m, digits);
  }

  lemma SequenceIsPlaced(m: Message)
    ensures Placed(m, Sequence(m))
  {
    if "mls:" < m.id && AllDigits(m.id[4..]) {
      var k := DigitsAreText(m.id[4..]);
      assert m.id == "mls:" + m.id[4..];
      assert IsRow(m, k, Number(m.id[4..]));
    } else if k: nat, row: nat :| IsRow(m, k, row) {
      RowIs(m, k, row);
    }
  }

  /** The number of a message is settled by its id, and by its sequence number where the id names no row. */
  lemma PlacedExactly(m: Message, n: int)
    ensures Sequence(m) == n <==> Placed(m, n)
  {
    SequenceIsPlaced(m);
    if Placed(m, n) && exists k: nat, row: nat :: IsRow(m, k, row) {
      var k: nat :| IsRow(m, k, n);
      RowIs(m, k, n);
    }
  }

  // ---------------------------------------------------------------------------
  // The order of the list
  // ---------------------------------------------------------------------------

  /** The message was sent at that time; one without a readable timestamp counts as sent at time zero. */
  predicate SentAt(loc: Locale, m: Message, time: int) {
    loc.parseDate(m.timestamp) == Some(time) || (loc.parseDate(m.timestamp) == None && time == 0)
  }

  /**
    Of two shown messages the one above was sent earlier; sent at one time, it
    has the smaller number; and with one number its client id does not collate
    behind the other.
   */
  lemma EarlierFirst(loc: Locale, decrypted: seq<Message>, pending: seq<Message>, i: nat, j: nat, t: int, u: int, n: int, k: int)
    requires Comparator(loc.collate) && i < j < |Merged(loc, decrypted, pending)|
    requires SentAt(loc, Merged(loc, decrypted, pending)[i], t) && SentAt(loc, Merged(loc, decrypted, pending)[j], u)
    requires Placed(Merged(loc, decrypted, pending)[i], n) && Placed(Merged(loc, decrypted, pending)[j], k)
    ensures t <= u
    ensures t == u ==> n <= k
    ensures t == u && n == k ==>
              loc.collate(Merged(loc, decrypted, pending)[i].clientId, Merged(loc, decrypted, pending)[j].clientId) <= 0
  {
    var feed := Merged(loc, decrypted, pending);
    MergedMeans(loc, decrypted, pending);
    PlacedExactly(feed[i], n);
    PlacedExactly(feed[j], k);
    assert Comparing(loc, feed[i], feed[j]) <= 0;
  }

  // ---------------------------------------------------------------------------
  // The messages of the list
  // ---------------------------------------------------------------------------

  /** No later message of the list has its id. */
  predicate IsLast(ms: seq<Message>, m: Message) {
    exists i :: 0 <= i < |ms| && ms[i] == m && forall j :: i < j < |ms| ==> ms[j].clientId != m.clientId
  }

  /** No earlier message of the list has its id. */
  predicate IsFirst(ms: seq<Message>, m: Message) {
    exists i :: 0 <= i < |ms| && ms[i] == m && forall j :: 0 <= j < i ==> ms[j].clientId != m.clientId
  }

  lemma {:induction false} LastIs(ms: seq<Message>, m: Message)
    ensures LastWith(ms, m.clientId) == Some(m) <==> IsLast(ms, m)
  {
    if ms != [] {
      var n := |ms| - 1;
      LastIs(ms[..n], m);
      if IsLast(ms[..n], m) && ms[n].clientId != m.clientId {
        var i :| 0 <= i < n && ms[..n][i] == m && forall j :: i < j < n ==> ms[..n][j].clientId != m.clientId;
        assert ms[i] == m && forall j :: i < j < |ms| ==> ms[j].clientId != m.clientId;
      }
      if IsLast(ms, m) {
        var i :| 0 <= i < |ms| && ms[i] == m && forall j :: i < j < |ms| ==> ms[j].clientId != m.clientId;
        if i < n { assert ms[..n][i] == m && forall j :: i < j < n ==> ms[..n][j].clientId != m.clientId; }
      }
    }
  }

  lemma {:induction false} FirstIs(ms: seq<Message>, m: Message)
    ensures FirstWith(ms, m.clientId) == Some(m) <==> IsFirst(ms, m)
  {
    if ms != [] {
      var n := |ms| - 1;
      FirstIs(ms[..n], m);
      FirstMeans(ms[..n], m.clientId);
      if IsFirst(ms[..n], m) {
        var i :| 0 <= i < n && ms[..n][i] == m && forall j :: 0 <= j < i ==> ms[..n][j].clientId != m.clientId;
        assert ms[i] == m && forall j :: 0 <= j < i ==> ms[j].clientId != m.clientId;
      } else if FirstWith(ms[..n], m.clientId).None? && ms[n] == m {
        forall j | 0 <= j < n ensures ms[j].clientId != m.clientId { assert ms[j] in ms[..n]; }
      }
      if IsFirst(ms, m) {
        var i :| 0 <= i < |ms| && ms[i] == m && forall j :: 0 <= j < i ==> ms[j].clientId != m.clientId;
        if i < n {
          assert ms[..n][i] == m && forall j :: 0 <= j < i ==> ms[..n][j].clientId != m.clientId;
        } else {
          forall d | d in ms[..n] ensures d.clientId != m.clientId { var j :| 0 <= j < n && ms[j] == d; }
        }
      }
    }
  }

  /**
    A message is shown if and only if it has a client id and either is the last
    decrypted one with that id, or no decrypted one has it and it is the first
    pending one.
   */
  lemma ShownExactly(loc: Locale, decrypted: seq<Message>, pending: seq<Message>, m: Message)
    requires Comparator(loc.collate)
    ensures m in Merged(loc, decrypted, pending) <==>
            && m.clientId != ""
            && (IsLast(decrypted, m) || ((forall d :: d in decrypted ==> d.clientId != m.clientId) && IsFirst(pending, m)))
  {
    MergedMeans(loc, decrypted, pending);
    LastIs(decrypted, m);
    LastMeans(decrypted, m.clientId);
    FirstIs(pending, m);
    if IsLast(decrypted, m) { assert LastWith(decrypted, m.clientId) == Some(m); }
  }
}
