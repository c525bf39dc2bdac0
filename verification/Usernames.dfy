/**
  Generated usernames: the migration that names every existing user and the
  registration helper.  Input is the login after `strip` and `lower`, as any
  string at all.
 */
module Usernames {
  import opened Common

  const MAX_LENGTH := 32

  // ---------------------------------------------------------------------------
  // Decimal numerals
  // ---------------------------------------------------------------------------

  predicate IsDigit(c: char) {
    '0' <= c <= '9'
  }

  function Digit(n: nat): (c: char)
    requires n < 10
    ensures IsDigit(c)
  {
    '0' + n as char
  }

  function Decimal(n: nat): (s: string)
    ensures s != "" && forall i :: 0 <= i < |s| ==> IsDigit(s[i])
  {
    if n < 10 then [Digit(n)] else Decimal(n / 10) + [Digit(n % 10)]
  }

  lemma {:induction false} DecimalInjective(m: nat, n: nat)
    requires Decimal(m) == Decimal(n)
    ensures m == n
  {
    var s := Decimal(m);
    assert s[|s| - 1] == Digit(m % 10) == Digit(n % 10);
    assert m % 10 == n % 10;
    if m >= 10 && n >= 10 {
      assert s[..|s| - 1] == Decimal(m / 10) == Decimal(n / 10);
      DecimalInjective(m / 10, n / 10);
    }
  }

  function Pow10(k: nat): (p: nat)
    ensures p > 0
  {
    if k == 0 then 1 else 10 * Pow10(k - 1)
  }

  lemma {:induction false} DecimalLength(n: nat, k: nat)
    requires k > 0 && n < Pow10(k)
    ensures |Decimal(n)| <= k
  {
    if n >= 10 {
      assert Pow10(1) == 10;
      DecimalLength(n / 10, k - 1);
    }
  }

  // ---------------------------------------------------------------------------
  // Cleaning a login
  // ---------------------------------------------------------------------------

  predicate IsWord(c: char) {
    'a' <= c <= 'z' || IsDigit(c) || c == '_'
  }

  predicate IsLead(c: char) {
    'a' <= c <= 'z' || IsDigit(c)
  }

  /** The pattern `[a-z0-9][a-z0-9_]{2,31}`. */
  predicate WellFormed(name: string) {
    3 <= |name| <= MAX_LENGTH && IsLead(name[0]) && forall i :: 0 <= i < |name| ==> IsWord(name[i])
  }

  /** Every run of other characters becomes one underscore. */
  function Collapse(s: string, inRun: bool): (r: string)
    ensures forall i :: 0 <= i < |r| ==> IsWord(r[i])
  {
    if s == "" then ""
    else if IsWord(s[0]) then [s[0]] + Collapse(s[1..], false)
    else (if inRun then "" else "_") + Collapse(s[1..], true)
  }

  /** Every other character becomes an underscore. */
  function Replace(s: string): (r: string)
    ensures forall i :: 0 <= i < |r| ==> IsWord(r[i])
  {
    if s == "" then "" else [if IsWord(s[0]) then s[0] else '_'] + Replace(s[1..])
  }

  function StripLeft(s: string): (r: string)
    ensures r != "" ==> r[0] != '_'
    ensures (forall i :: 0 <= i < |s| ==> IsWord(s[i])) ==> forall i :: 0 <= i < |r| ==> IsWord(r[i])
  {
    if s != "" && s[0] == '_' then StripLeft(s[1..]) else s
  }

  function StripRight(s: string): (r: string)
    ensures r <= s
    ensures r != "" ==> r[|r| - 1] != '_'
  {
    if s != "" && s[|s| - 1] == '_' then StripRight(s[..|s| - 1]) else s
  }

  function Strip(s: string): (r: string)
    ensures r != "" ==> r[0] != '_' && r[|r| - 1] != '_'
    ensures (forall i :: 0 <= i < |s| ==> IsWord(s[i])) ==> forall i :: 0 <= i < |r| ==> IsWord(r[i])
  {
    StripRight(StripLeft(s))
  }

  function Shorten(s: string): string {
    if |s| <= MAX_LENGTH then s else s[..MAX_LENGTH]
  }

  function MigrationBase(login: string, userId: nat): string {
    var stripped := Strip(Collapse(login, false));
    var named := if stripped == "" || !IsLead(stripped[0]) then "user_" + Decimal(userId) else stripped;
    Shorten(if |named| < 3 then "user_" + Decimal(userId) else named)
  }

  function RegistrationBase(login: string): string {
    var stripped := Strip(Replace(login));
    Shorten(if |stripped| < 3 then "user_" + stripped else stripped)
  }

  lemma UserPrefix(rest: string)
    requires forall i :: 0 <= i < |rest| ==> IsWord(rest[i])
    ensures WellFormed(Shorten("user_" + rest))
  {
    var s := "user_" + rest;
    assert s[0] == 'u' && s[1] == 's' && s[2] == 'e' && s[3] == 'r' && s[4] == '_';
    forall i | 0 <= i < |s| ensures IsWord(s[i]) {
      if i >= 5 { assert s[i] == rest[i - 5]; }
    }
  }

  /** Whatever the login was, both bases match the pattern. */
  lemma BasesWellFormed(login: string, userId: nat)
    ensures WellFormed(MigrationBase(login, userId)) && WellFormed(RegistrationBase(login))
  {
    UserPrefix(Decimal(userId));
    UserPrefix(Strip(Replace(login)));
  }

  // ---------------------------------------------------------------------------
  // Candidates
  // ---------------------------------------------------------------------------

  /** Fewer than this many names are in use: suffixes then fit beside the first character of a base. */
  const NAME_LIMIT: nat := Pow10(30)

  lemma SuffixFits(k: nat)
    requires k < NAME_LIMIT
    ensures |Decimal(k)| <= 30
  {
    DecimalLength(k, 30);
  }

  /** The candidate with the given suffix number; number 0 is the base itself. */
  function Nth(base: string, k: nat): string
    requires k < NAME_LIMIT
  {
    if k == 0 then base
    else
      SuffixFits(k);
      var ending := "_" + Decimal(k);
      var room := MAX_LENGTH - |ending|;
      (if |base| <= room then base else base[..room]) + ending
  }

  /** The suffix number can be read off a candidate, however the base was cut. */
  lemma NthSuffix(base: string, k: nat)
    requires 0 < k < NAME_LIMIT
    ensures AfterLast('_', Nth(base, k)) == Decimal(k)
  {
    SuffixFits(k);
    var room := MAX_LENGTH - 1 - |Decimal(k)|;
    var stem := if |base| <= room then base else base[..room];
    assert Nth(base, k) == stem + ['_'] + Decimal(k);
    AfterLastIs('_', stem, Decimal(k));
  }

  /** Different suffix numbers never give the same candidate. */
  lemma CandidatesDistinct(base: string, j: nat, k: nat)
    requires 0 < j < NAME_LIMIT && 0 < k < NAME_LIMIT
    requires Nth(base, j) == Nth(base, k)
    ensures j == k
  {
    NthSuffix(base, j);
    NthSuffix(base, k);
    DecimalInjective(j, k);
  }

  lemma NthWellFormed(base: string, k: nat)
    requires WellFormed(base) && k < NAME_LIMIT
    ensures WellFormed(Nth(base, k))
  {
    if k > 0 {
      SuffixFits(k);
      var c, d := Nth(base, k), Decimal(k);
      var room := MAX_LENGTH - 1 - |d|;
      var stem := if |base| <= room then base else base[..room];
      forall i | 0 <= i < |c| ensures IsWord(c[i]) {
        if i > |stem| { assert c[i] == d[i - |stem| - 1]; }
      }
    }
  }

  // ---------------------------------------------------------------------------
  // The loops
  // ---------------------------------------------------------------------------

  /** Pigeonhole: if the first n suffixes are all in use, at least n names are. */
  lemma {:induction false} TriedAtMostUsed(base: string, n: nat, used: set<string>)
    requires n < NAME_LIMIT
    requires forall k: nat :: 0 < k <= n ==> Nth(base, k) in used
    ensures n <= |used|
  {
    if n > 0 {
      forall k: nat | 0 < k <= n - 1 ensures Nth(base, k) in used - {Nth(base, n)} {
        if Nth(base, k) == Nth(base, n) { CandidatesDistinct(base, k, n); }
      }
      TriedAtMostUsed(base, n - 1, used - {Nth(base, n)});
    }
  }

  /** The first candidate not in use, found within one more try than there are names in use. */
  method FirstFree(base: string, used: set<string>) returns (candidate: string, ghost tries: nat)
    requires WellFormed(base) && |used| + 2 < NAME_LIMIT
    ensures candidate !in used && WellFormed(candidate)
    ensures tries <= |used| + 1 && candidate == Nth(base, tries)
    ensures forall k: nat :: k < tries ==> Nth(base, k) in used
  {
    candidate := base;
    var suffix := 1;
    while candidate in used
      invariant 1 <= suffix <= |used| + 2
      invariant candidate == Nth(base, suffix - 1)
      invariant forall k: nat :: k < suffix - 1 ==> Nth(base, k) in used
      decreases |used| + 2 - suffix
    {
      TriedAtMostUsed(base, suffix - 1, used);
      SuffixFits(suffix);
      var ending := "_" + Decimal(suffix);
      var room := MAX_LENGTH - |ending|;
      candidate := (if |base| <= room then base else base[..room]) + ending;
      suffix := suffix + 1;
    }
    tries := suffix - 1;
    NthWellFormed(base, tries);
  }

  /** The name is the base's first candidate not in use. */
  ghost predicate FirstFor(base: string, used: set<string>, name: string) {
    exists k: nat :: IsFirstFree(base, used, k) && name == Nth(base, k)
  }

  ghost predicate IsFirstFree(base: string, used: set<string>, k: nat) {
    k < NAME_LIMIT && Nth(base, k) !in used && forall j: nat :: j < k ==> Nth(base, j) in used
  }

  function Names(names: seq<string>): set<string> {
    set x | x in names
  }

  method AvailableUsername(login: string, taken: set<string>) returns (name: string)
    requires |taken| + 2 < NAME_LIMIT
    ensures name !in taken && WellFormed(name)
    ensures FirstFor(RegistrationBase(login), taken, name)
  {
    BasesWellFormed(login, 0);
    ghost var tries;
    name, tries := FirstFree(RegistrationBase(login), taken);
    assert IsFirstFree(RegistrationBase(login), taken, tries);
  }

  datatype UserRow = UserRow(id: nat, login: string)

  /** Each name is its row's first candidate that no earlier row has. */
  ghost predicate InTurn(rows: seq<UserRow>, names: seq<string>) {
    |names| <= |rows| &&
    forall i :: 0 <= i < |names| ==> FirstFor(MigrationBase(rows[i].login, rows[i].id), Names(names[..i]), names[i])
  }

  lemma OneMoreName(rows: seq<UserRow>, names: seq<string>, name: string)
    requires InTurn(rows, names) && |names| < |rows|
    requires FirstFor(MigrationBase(rows[|names|].login, rows[|names|].id), Names(names), name)
    ensures InTurn(rows, names + [name])
    ensures Names(names + [name]) == Names(names) + {name} && name !in Names(names)
  {
    var more := names + [name];
    assert more[..|names|] == names;
    forall i | 0 <= i < |names| ensures more[..i] == names[..i] && more[i] == names[i] {}
  }

  lemma InTurnIsGood(rows: seq<UserRow>, names: seq<string>)
    requires InTurn(rows, names)
    ensures forall i :: 0 <= i < |names| ==> WellFormed(names[i])
    ensures forall i, j :: 0 <= i < j < |names| ==> names[i] != names[j]
  {
    forall j | 0 <= j < |names| ensures WellFormed(names[j]) && names[j] !in names[..j] {
      var base := MigrationBase(rows[j].login, rows[j].id);
      var k: nat :| IsFirstFree(base, Names(names[..j]), k) && names[j] == Nth(base, k);
      BasesWellFormed(rows[j].login, rows[j].id);
      NthWellFormed(base, k);
    }
    forall i, j | 0 <= i < j < |names| ensures names[i] != names[j] { assert names[..j][i] == names[i]; }
  }

  /** The migration over all users: the names match the pattern, and each is its row's first candidate that no earlier row has. */
  method Upgrade(rows: seq<UserRow>) returns (names: seq<string>)
    requires |rows| + 2 < NAME_LIMIT
    ensures |names| == |rows| && InTurn(rows, names)
    ensures forall i :: 0 <= i < |names| ==> WellFormed(names[i])
    ensures forall i, j :: 0 <= i < j < |names| ==> names[i] != names[j]
  {
    names := [];
    var used: set<string> := {};
    var i := 0;
    while i < |rows|
      invariant i <= |rows| && |names| == i && InTurn(rows, names)
      invariant |used| == i && used == Names(names)
    {
      BasesWellFormed(rows[i].login, rows[i].id);
      var name;
      ghost var tries;
      name, tries := FirstFree(MigrationBase(rows[i].login, rows[i].id), used);
      assert IsFirstFree(MigrationBase(rows[i].login, rows[i].id), used, tries);
      OneMoreName(rows, names, name);
      used := used + {name};
      names := names + [name];
      i := i + 1;
    }
    InTurnIsGood(rows, names);
  }

  // ---------------------------------------------------------------------------
  // What a base and a candidate look like
  // ---------------------------------------------------------------------------

  predicate AllWord(s: string) {
    forall i :: 0 <= i < |s| ==> IsWord(s[i])
  }

  predicate NoWord(s: string) {
    forall i :: 0 <= i < |s| ==> !IsWord(s[i])
  }

  lemma {:induction false} CollapseWord(word: string, rest: string, inRun: bool)
    requires AllWord(word) && word != ""
    ensures Collapse(word + rest, inRun) == word + Collapse(rest, false)
  {
    assert (word + rest)[1..] == word[1..] + rest;
    if |word| > 1 {
      CollapseWord(word[1..], rest, false);
      assert word == [word[0]] + word[1..];
    } else {
      assert word[1..] + rest == rest && word == [word[0]];
    }
  }

  lemma {:induction false} CollapseGone(other: string, rest: string)
    requires NoWord(other)
    ensures Collapse(other + rest, true) == Collapse(rest, true)
  {
    if other == "" {
      assert other + rest == rest;
    } else {
      assert (other + rest)[1..] == other[1..] + rest;
      CollapseGone(other[1..], rest);
    }
  }

  /** A run of other characters in front becomes one underscore. */
  lemma CollapseOther(other: string, next: string)
    requires NoWord(other) && other != "" && (next != "" ==> IsWord(next[0]))
    ensures Collapse(other + next, false) == "_" + Collapse(next, false)
  {
    assert (other + next)[1..] == other[1..] + next;
    CollapseGone(other[1..], next);
    if next != "" { assert Collapse(next, true) == Collapse(next, false); }
  }

  /** Words stay as they are, and each run of other characters behind them becomes one underscore. */
  lemma CollapseRun(word: string, other: string, next: string)
    requires AllWord(word) && NoWord(other) && word != "" && other != "" && (next != "" ==> IsWord(next[0]))
    ensures Collapse(word + (other + next), false) == word + ("_" + Collapse(next, false))
  {
    CollapseWord(word, other + next, false);
    CollapseOther(other, next);
  }

  /** Registration keeps the length: each character outside the alphabet becomes one underscore. */
  lemma {:induction false} ReplaceAt(s: string, i: nat)
    requires i < |s|
    ensures |Replace(s)| == |s| && Replace(s)[i] == if IsWord(s[i]) then s[i] else '_'
  {
    if |s| > 1 { ReplaceAt(s[1..], if i > 0 then i - 1 else 0); }
  }

  predicate Underscores(s: string) {
    forall i :: 0 <= i < |s| ==> s[i] == '_'
  }

  /** No underscore at either end. */
  predicate Trim(s: string) {
    s != "" ==> s[0] != '_' && s[|s| - 1] != '_'
  }

  lemma {:induction false} StripLeftIs(front: string, rest: string)
    requires Underscores(front) && (rest != "" ==> rest[0] != '_')
    ensures StripLeft(front + rest) == rest
  {
    if front == "" {
      assert front + rest == rest;
    } else {
      assert (front + rest)[1..] == front[1..] + rest;
      StripLeftIs(front[1..], rest);
    }
  }

  lemma {:induction false} StripRightIs(s: string, back: string)
    requires Underscores(back) && (s != "" ==> s[|s| - 1] != '_')
    ensures StripRight(s + back) == s
  {
    if back == "" {
      assert s + back == s;
    } else {
      var n := |back| - 1;
      assert (s + back)[..|s| + n] == s + back[..n];
      StripRightIs(s, back[..n]);
    }
  }

  lemma {:induction false} AllStripped(s: string)
    requires Underscores(s)
    ensures Strip(s) == ""
  {
    StripLeftIs(s, "");
    assert s + "" == s;
    StripRightIs("", "");
  }

  /** Exactly the underscores at the two ends go. */
  lemma StripIs(front: string, core: string, back: string)
    requires Underscores(front) && Underscores(back) && Trim(core)
    ensures Strip(front + core + back) == core
  {
    if core == "" {
      AllStripped(front + core + back);
    } else {
      assert front + core + back == front + (core + back);
      StripLeftIs(front, core + back);
      StripRightIs(core, back);
    }
  }

  lemma NothingToStrip(core: string)
    requires Trim(core)
    ensures Strip(core) == core
  {
    StripIs("", core, "");
    assert "" + core + "" == core;
  }

  /** The first 32 characters. */
  function Head(s: string): string {
    if |s| > 32 then s[..32] else s
  }

  /** The migration's base is the cleaned login, or the user's number where less than three characters are left. */
  lemma MigrationBaseIs(login: string, userId: nat, front: string, core: string, back: string)
    requires Underscores(front) && Underscores(back) && Trim(core)
    requires Collapse(login, false) == front + core + back
    ensures MigrationBase(login, userId) == if |core| < 3 then Head("user_" + Decimal(userId)) else Head(core)
  {
    StripIs(front, core, back);
    if core != "" { assert IsWord((front + core + back)[|front|]); }
  }

  /** Registration's base is the cleaned login, with a prefix where less than three characters are left. */
  lemma RegistrationBaseIs(login: string, front: string, core: string, back: string)
    requires Underscores(front) && Underscores(back) && Trim(core)
    requires Replace(login) == front + core + back
    ensures RegistrationBase(login) == if |core| < 3 then "user_" + core else Head(core)
  {
    StripIs(front, core, back);
  }

  lemma {:induction false} WordIsKept(s: string)
    requires AllWord(s)
    ensures Collapse(s, false) == s && Replace(s) == s
  {
    if s != "" {
      WordIsKept(s[1..]);
      assert s == [s[0]] + s[1..];
    }
  }

  /** A login that is a well-formed name without underscores at its ends is its own base. */
  lemma GoodLoginIsKept(login: string, userId: nat)
    requires WellFormed(login) && login[|login| - 1] != '_'
    ensures MigrationBase(login, userId) == login && RegistrationBase(login) == login
  {
    WordIsKept(login);
    NothingToStrip(login);
  }

  /** A candidate is the base, or as much of the base as fits into 32 characters with an underscore and the number. */
  lemma NthIs(base: string, k: nat) returns (stem: string)
    requires k < NAME_LIMIT && |base| <= 32
    ensures Nth(base, 0) == base
    ensures stem <= base && (k > 0 ==> Nth(base, k) == stem + "_" + Decimal(k) && |Nth(base, k)| <= 32)
    ensures k > 0 && stem != base ==> |Nth(base, k)| == 32
  {
    SuffixFits(k);
    var room := 31 - |Decimal(k)|;
    stem := if |base| <= room then base else base[..room];
    if k > 0 { assert Nth(base, k) == stem + "_" + Decimal(k); }
  }
}
