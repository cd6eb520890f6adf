/**
 Who each commit was authorised for (`lakehouse_kit/commit_records.py`): one write-once record per table,
 transaction and version, created where none is kept and read back where one is.

 Any number of calls run at once. A call is two requests to the store, the create and, when that finds
 the key taken, the read back; `World.calls` keeps where each call stands, so the runs of the machine are
 all the interleavings of those requests and of the deletes between them.
 */
module CommitAuthors {
  import opened Outcomes

  datatype CommitAuthor =
    CommitAuthor(author: string, transaction: string, ref: string, version: int, manifest: Option<string>)

  /** What the store keeps at a key; Garbled is anything that does not read as a record. */
  datatype Body = Garbled | Kept(record: CommitAuthor)

  datatype Request = Request(table: string, record: CommitAuthor)

  datatype Stage = Invalid | Lost | Created | Again | Refused

  datatype Call = Call(request: Request, stage: Stage)

  datatype World = World(records: map<string, Body>, calls: map<int, Call>)

  // ---------------------------------------------------------------- keys

  predicate LowerHex(c: char) {
    '0' <= c <= '9' || 'a' <= c <= 'f'
  }

  /** A uuid spelled as it prints: 8-4-4-4-12 lower-case hex digits. */
  predicate Canonical(s: string) {
    |s| == 36 && forall i :: 0 <= i < 36 ==> if i in {8, 13, 18, 23} then s[i] == '-' else LowerHex(s[i])
  }

  // What prints as a uuid: a number of 128 bits, as 32 hex digits in the five groups.

  function HexText(n: nat, width: nat): (text: string)
    ensures |text| == width
  {
    if width == 0 then "" else HexText(n / 16, width - 1) + ["0123456789abcdef"[n % 16]]
  }

  function Grouped(h: string): string
    requires |h| == 32
  {
    h[..8] + "-" + h[8..12] + "-" + h[12..16] + "-" + h[16..20] + "-" + h[20..]
  }

  function Power16(width: nat): nat {
    if width == 0 then 1 else 16 * Power16(width - 1)
  }

  lemma {:induction false} HexTextIsLowerHex(n: nat, width: nat)
    ensures forall i :: 0 <= i < width ==> LowerHex(HexText(n, width)[i])
  {
    if width > 0 {
      HexTextIsLowerHex(n / 16, width - 1);
    }
  }

  lemma {:induction false} LowerHexIsText(h: string) returns (n: nat)
    requires forall i :: 0 <= i < |h| ==> LowerHex(h[i])
    ensures n < Power16(|h|) && HexText(n, |h|) == h
    decreases |h|
  {
    n := 0;
    if h != "" {
      var w := |h| - 1;
      var high := LowerHexIsText(h[..w]);
      var low := if h[w] <= '9' then (h[w] - '0') as nat else (h[w] - 'a') as nat + 10;
      n := 16 * high + low;
      assert n / 16 == high && n % 16 == low;
      assert h == h[..w] + [h[w]];
    }
  }

  function Digits(s: string): string
    requires |s| == 36
  {
    s[..8] + s[9..13] + s[14..18] + s[19..23] + s[24..]
  }

  lemma {:induction false} CanonicalIsGrouped(s: string)
    requires Canonical(s)
    ensures |Digits(s)| == 32 && forall i :: 0 <= i < 32 ==> LowerHex(Digits(s)[i])
    ensures Grouped(Digits(s)) == s
  {
    var h := Digits(s);
    assert h[..8] == s[..8] && h[8..12] == s[9..13] && h[12..16] == s[14..18] && h[16..20] == s[19..23];
    assert h[20..] == s[24..];
    assert s == s[..8] + [s[8]] + s[9..13] + [s[13]] + s[14..18] + [s[18]] + s[19..23] + [s[23]] + s[24..];
  }

  lemma {:induction false} GroupedIsCanonical(h: string)
    requires |h| == 32 && forall i :: 0 <= i < 32 ==> LowerHex(h[i])
    ensures Canonical(Grouped(h))
  {
    var s := Grouped(h);
    assert s[..8] == h[..8] && s[9..13] == h[8..12] && s[14..18] == h[12..16] && s[19..23] == h[16..20];
    assert s[24..] == h[20..] && s[8] == s[13] == s[18] == s[23] == '-';
    forall i | 0 <= i < 36 && i !in {8, 13, 18, 23} ensures LowerHex(s[i]) {
      var k := if i < 8 then i else if i < 13 then i - 1 else if i < 18 then i - 2 else if i < 23 then i - 3 else i - 4;
      assert s[i] == h[k];
    }
  }

  /** A string is canonical exactly when it is some uuid as it prints. */
  lemma {:induction false} CanonicalExactly(s: string)
    ensures Canonical(s) <==> exists n: nat :: n < Power16(32) && Grouped(HexText(n, 32)) == s
  {
    assert Canonical(s) ==> |s| == 36;
    hide Canonical, Grouped, HexText, Power16, Digits;
    if Canonical(s) {
      CanonicalIsGrouped(s);
      var n := LowerHexIsText(Digits(s));
    }
    if n: nat :| n < Power16(32) && Grouped(HexText(n, 32)) == s {
      HexTextIsLowerHex(n, 32);
      GroupedIsCanonical(HexText(n, 32));
    }
  }

  /** What a decimal text stands for. */
  function ValueOf(text: string): int {
    if text == "" then 0 else 10 * ValueOf(text[..|text| - 1]) + (text[|text| - 1] as int - '0' as int)
  }

  lemma {:induction false} DecimalExactly(n: nat)
    ensures ValueOf(Decimal(n)) == n
    ensures Decimal(n)[0] == '0' <==> n == 0
  {
    if n >= 10 {
      DecimalExactly(n / 10);
    }
    assert Decimal(n)[..|Decimal(n)| - 1] == if n < 10 then "" else Decimal(n / 10);
  }

  function Decimal(n: nat): (text: string)
    ensures text != "" && forall c :: c in text ==> '0' <= c <= '9'
  {
    (if n < 10 then "" else Decimal(n / 10)) + ['0' + (n % 10) as char]
  }

  function Text(n: int): string {
    if n < 0 then "-" + Decimal(-n) else Decimal(n)
  }

  /** The text before the version's extension, and the whole key. */
  function Stem(table: string, transaction: string, version: int): string {
    "_commit_authors/" + table + "/" + transaction + "/" + Text(version)
  }

  function AuthorKey(table: string, transaction: string, version: int): string {
    Stem(table, transaction, version) + ".json"
  }

  /** The key, written out. */
  lemma {:induction false} KeyIs(table: string, transaction: string, version: nat)
    ensures AuthorKey(table, transaction, version)
            == "_commit_authors" + "/" + table + "/" + transaction + "/" + Decimal(version) + ".json"
    ensures version > 0 ==>
              AuthorKey(table, transaction, -(version as int))
              == "_commit_authors" + "/" + table + "/" + transaction + "/" + "-" + Decimal(version) + ".json"
  {
    assert "_commit_authors/" == "_commit_authors" + "/";
  }

  function KeyOf(q: Request): string {
    AuthorKey(q.table, q.record.transaction, q.record.version)
  }

  lemma {:induction false} DecimalIsInjective(m: nat, n: nat)
    requires Decimal(m) == Decimal(n)
    ensures m == n
  {
    DecimalExactly(m);
    DecimalExactly(n);
  }

  lemma {:induction false} SignShows(n: int)
    ensures Text(n) != "" && (Text(n)[0] == '-' <==> n < 0)
    ensures '/' !in Text(n)
  {
    if n >= 0 {
      assert Decimal(n)[0] in Decimal(n);
    }
  }

  lemma {:induction false} TextIsInjective(m: int, n: int)
    requires Text(m) == Text(n)
    ensures m == n
  {
    SignShows(m);
    SignShows(n);
    if m < 0 {
      assert Decimal(-m) == Text(m)[1..] && Decimal(-n) == Text(n)[1..];
      DecimalIsInjective(-m, -n);
    } else {
      DecimalIsInjective(m, n);
    }
  }

  function AfterLastSlash(s: string): string {
    if s == "" || s[|s| - 1] == '/' then "" else AfterLastSlash(s[..|s| - 1]) + [s[|s| - 1]]
  }

  lemma {:induction false} AfterTheSlash(a: string, b: string)
    requires '/' !in b
    ensures AfterLastSlash(a + "/" + b) == b
    decreases |b|
  {
    var whole := a + "/" + b;
    if b != "" {
      var init := b[..|b| - 1];
      assert b == init + [b[|b| - 1]];
      assert whole[..|whole| - 1] == a + "/" + init;
      assert whole[|whole| - 1] == b[|b| - 1];
      AfterTheSlash(a, init);
    }
  }

  /** A text cut at its last '/' is cut one way only. */
  lemma {:induction false} LastCut(a: string, b: string, c: string, d: string)
    requires a + "/" + b == c + "/" + d && '/' !in b && '/' !in d
    ensures a == c && b == d
  {
    AfterTheSlash(a, b);
    AfterTheSlash(c, d);
    assert a == (a + "/" + b)[..|a|] && c == (c + "/" + d)[..|a|];
  }

  /** Two commits share a key only when they are the same transaction at the same version of the same
      table, whatever characters the table's own name is made of. */
  lemma {:induction false} KeyIsInjective(t: string, x: string, v: int, t': string, x': string, v': int)
    requires Canonical(x) && Canonical(x')
    ensures AuthorKey(t, x, v) == AuthorKey(t', x', v') <==> t == t' && x == x' && v == v'
  {
    if AuthorKey(t, x, v) == AuthorKey(t', x', v') {
      var key := AuthorKey(t, x, v);
      assert key[..|key| - 5] == Stem(t, x, v) && key[..|key| - 5] == Stem(t', x', v');
      SignShows(v);
      SignShows(v');
      LastCut("_commit_authors/" + t + "/" + x, Text(v), "_commit_authors/" + t' + "/" + x', Text(v'));
      TextIsInjective(v, v');
      LastCut("_commit_authors/" + t, x, "_commit_authors/" + t', x');
      assert t == ("_commit_authors/" + t)[16..] && t' == ("_commit_authors/" + t')[16..];
    }
  }

  // ---------------------------------------------------------------- the machine

  datatype Step =
    | Attempt(id: int, request: Request)
    | ReadBack(id: int)
    | Forget(table: string, transaction: string, version: int)

  /** Whether the record kept at the request's key is a retry's: readable, same author, same ref. */
  predicate SameCommit(records: map<string, Body>, q: Request) {
    KeyOf(q) in records && records[KeyOf(q)].Kept?
    && records[KeyOf(q)].record.author == q.record.author && records[KeyOf(q)].record.ref == q.record.ref
  }

  function Next(w: World, s: Step): World {
    match s
    case Attempt(id, q) =>
      if id in w.calls then w
      else if !Canonical(q.record.transaction) then w.(calls := w.calls[id := Call(q, Invalid)])
      else if KeyOf(q) in w.records then w.(calls := w.calls[id := Call(q, Lost)])
      else World(w.records[KeyOf(q) := Kept(q.record)], w.calls[id := Call(q, Created)])
    case ReadBack(id) =>
      if id in w.calls && w.calls[id].stage == Lost
      then
        var stage := if SameCommit(w.records, w.calls[id].request) then Again else Refused;
        w.(calls := w.calls[id := w.calls[id].(stage := stage)])
      else w
    case Forget(table, transaction, version) =>
      if Canonical(transaction) then w.(records := w.records - {AuthorKey(table, transaction, version)}) else w
  }

  function Run(w: World, steps: seq<Step>): World
    decreases |steps|
  {
    if steps == [] then w else Next(Run(w, steps[..|steps| - 1]), steps[|steps| - 1])
  }

  /** Whether call `id` has been made for the commit at `key`. */
  predicate Made(w: World, id: int, key: string) {
    id in w.calls && w.calls[id].stage != Invalid && KeyOf(w.calls[id].request) == key
  }

  predicate Returned(w: World, id: int) {
    id in w.calls && w.calls[id].stage in {Created, Again}
  }

  // ---------------------------------------------------------------- one record per key, written once

  predicate ForgetsKey(s: Step, key: string) {
    s.Forget? && Canonical(s.transaction) && AuthorKey(s.table, s.transaction, s.version) == key
  }

  predicate NeverForgets(steps: seq<Step>, key: string) {
    forall s :: s in steps ==> !ForgetsKey(s, key)
  }

  /** Once kept, a record stays as it is, manifest included, until it is forgotten; and forgetting another
      commit never forgets this one. */
  lemma {:induction false} WrittenOnce(w: World, steps: seq<Step>, key: string)
    requires key in w.records && NeverForgets(steps, key)
    ensures key in Run(w, steps).records && Run(w, steps).records[key] == w.records[key]
    decreases |steps|
  {
    if steps != [] {
      WrittenOnce(w, steps[..|steps| - 1], key);
      assert !ForgetsKey(steps[|steps| - 1], key);
    }
  }

  /** A forget of one commit is a forget of no other. */
  lemma {:induction false} ForgettingForgetsOneCommit(s: Step, t: string, x: string, v: int)
    requires s.Forget? && Canonical(x)
    ensures ForgetsKey(s, AuthorKey(t, x, v)) <==> s == Forget(t, x, v)
  {
    if Canonical(s.transaction) {
      KeyIsInjective(s.table, s.transaction, s.version, t, x, v);
    }
  }

  /** Where a call on `key` stands says what the record there is. */
  ghost predicate Stands(w: World, id: int, key: string) {
    Made(w, id, key) ==>
      && key in w.records
      && (w.calls[id].stage == Created ==> w.records[key] == Kept(w.calls[id].request.record))
      && (Returned(w, id) ==> SameCommit(w.records, w.calls[id].request))
      && (w.calls[id].stage == Refused ==> !SameCommit(w.records, w.calls[id].request))
  }

  ghost predicate Agreed(w: World, key: string) {
    && (forall id :: id in w.calls ==> Stands(w, id, key))
    && (forall i, j :: Made(w, i, key) && Made(w, j, key) && w.calls[i].stage == w.calls[j].stage == Created ==> i == j)
  }

  lemma {:induction false} StepKeepsAgreed(w: World, s: Step, key: string)
    requires Agreed(w, key) && !ForgetsKey(s, key)
    ensures Agreed(Next(w, s), key)
  {
    hide Canonical, AuthorKey;
    var w' := Next(w, s);
    forall id | id in w'.calls ensures Stands(w', id, key) {
      if id in w.calls {
        assert Stands(w, id, key);
      }
    }
    forall i, j | Made(w', i, key) && Made(w', j, key) && w'.calls[i].stage == Created && w'.calls[j].stage == Created
      ensures i == j
    {
      assert i in w.calls ==> Made(w, i, key) && Stands(w, i, key);
      assert j in w.calls ==> Made(w, j, key) && Stands(w, j, key);
    }
  }

  lemma {:induction false} RunKeepsAgreed(w: World, steps: seq<Step>, key: string)
    requires Agreed(w, key) && NeverForgets(steps, key)
    ensures Agreed(Run(w, steps), key)
    decreases |steps|
  {
    if steps != [] {
      RunKeepsAgreed(w, steps[..|steps| - 1], key);
      StepKeepsAgreed(Run(w, steps[..|steps| - 1]), steps[|steps| - 1], key);
    }
  }

  /** Over every interleaving of calls on one commit with no forget of it between: at most one call creates
      the record, and the record is then its request to the letter; every two calls that return agree on
      author and ref; and a call that has ended returned exactly when the record kept at the end names its
      own author and ref. */
  lemma {:induction false} OneAuthorPerCommit(records: map<string, Body>, steps: seq<Step>, key: string, i: int, j: int)
    requires NeverForgets(steps, key)
    requires var w := Run(World(records, map[]), steps); Made(w, i, key) && Made(w, j, key)
    ensures var w := Run(World(records, map[]), steps);
            && (w.calls[i].stage == Created && w.calls[j].stage == Created ==> i == j)
            && (w.calls[i].stage == Created ==>
                key !in records && key in w.records && w.records[key] == Kept(w.calls[i].request.record))
            && (Returned(w, i) && Returned(w, j) ==>
                  w.calls[i].request.record.author == w.calls[j].request.record.author
                  && w.calls[i].request.record.ref == w.calls[j].request.record.ref)
            && (w.calls[i].stage != Lost ==>
                (Returned(w, i)
                 <==> && key in w.records && w.records[key].Kept?
                      && w.records[key].record.author == w.calls[i].request.record.author
                      && w.records[key].record.ref == w.calls[i].request.record.ref))
  {
    var start := World(records, map[]);
    RunKeepsAgreed(start, steps, key);
    var w := Run(start, steps);
    assert Stands(w, i, key) && Stands(w, j, key);
    if key in records {
      NoneCreatedOverOne(start, steps, key, i);
    }
  }

  lemma {:induction false} NoneCreatedOverOne(w: World, steps: seq<Step>, key: string, id: int)
    requires key in w.records && NeverForgets(steps, key) && id !in w.calls
    ensures Made(Run(w, steps), id, key) ==> Run(w, steps).calls[id].stage != Created
    decreases |steps|
  {
    hide Canonical, AuthorKey, SameCommit;
    if steps != [] {
      var head := steps[..|steps| - 1];
      NoneCreatedOverOne(w, head, key, id);
      WrittenOnce(w, head, key);
      hide Run;
    }
  }

  /** The first call on a commit nobody recorded is the one that creates it: were none to, every call would
      have found a record no call wrote. */
  lemma {:induction false} SomeCallCreates(records: map<string, Body>, steps: seq<Step>, key: string, id: int)
    requires NeverForgets(steps, key) && key !in records
    requires Made(Run(World(records, map[]), steps), id, key)
    ensures var w := Run(World(records, map[]), steps);
            exists c :: Made(w, c, key) && w.calls[c].stage == Created
  {
    var start := World(records, map[]);
    RunKeepsAgreed(start, steps, key);
    assert Stands(Run(start, steps), id, key);
    HasACreator(start, steps, key);
  }

  lemma {:induction false} HasACreator(w: World, steps: seq<Step>, key: string)
    requires key !in w.records && key in Run(w, steps).records
    ensures exists c :: Made(Run(w, steps), c, key) && Run(w, steps).calls[c].stage == Created
    decreases |steps|
  {
    hide Canonical, AuthorKey, SameCommit;
    var before := Run(w, steps[..|steps| - 1]);
    var s := steps[|steps| - 1];
    if key in before.records {
      HasACreator(w, steps[..|steps| - 1], key);
      var c :| Made(before, c, key) && before.calls[c].stage == Created;
      assert Made(Next(before, s), c, key);
    } else {
      assert Made(Next(before, s), s.id, key);
    }
  }

  // ---------------------------------------------------------------- what a re-announcement is signed for

  /** `recorded`: the record of the commit, if it names exactly this transaction, version and ref. */
  function Recorded(
      records: map<string, Body>, table: string, transaction: string, version: int, ref: string)
      : Option<CommitAuthor>
  {
    var key := AuthorKey(table, transaction, version);
    if !Canonical(transaction) || key !in records || records[key].Garbled? then None
    else
      var found := records[key].record;
      if (found.transaction, found.version, found.ref) != (transaction, version, ref) then None else Some(found)
  }

  ghost predicate CreatedBy(w: World, key: string, id: int) {
    Made(w, id, key) && w.calls[id].stage == Created && key in w.records
    && w.records[key] == Kept(w.calls[id].request.record)
  }

  /** Every record was created by a call, and every call that reached the store named a canonical uuid. */
  ghost predicate Sound(w: World) {
    && (forall key :: key in w.records ==> exists c :: CreatedBy(w, key, c))
    && (forall id :: id in w.calls && w.calls[id].stage != Invalid ==>
        Canonical(w.calls[id].request.record.transaction))
  }

  lemma {:induction false} StepIsSound(w: World, s: Step)
    requires Sound(w)
    ensures Sound(Next(w, s))
  {
    hide Canonical, AuthorKey, SameCommit;
    var w' := Next(w, s);
    forall key | key in w'.records ensures exists c :: CreatedBy(w', key, c) {
      if key in w.records {
        var c :| CreatedBy(w, key, c);
        assert CreatedBy(w', key, c);
      } else {
        assert CreatedBy(w', key, s.id);
      }
    }
  }

  lemma {:induction false} RunIsSound(steps: seq<Step>)
    ensures Sound(Run(World(map[], map[]), steps))
    decreases |steps|
  {
    if steps != [] {
      RunIsSound(steps[..|steps| - 1]);
      StepIsSound(Run(World(map[], map[]), steps[..|steps| - 1]), steps[|steps| - 1]);
    }
  }

  /** Nothing is ever signed for a caller the catalog did not record: an answer is, to the letter, the
      request of a call that created it on this very table, transaction, version and ref. The key alone
      settles the table, the transaction and the version, so on records this module wrote the answer depends
      on nothing but the ref. */
  lemma {:induction false} SignsOnlyWhatWasRecorded(
      steps: seq<Step>, table: string, transaction: string, version: int, ref: string)
    ensures var w := Run(World(map[], map[]), steps);
            var answer := Recorded(w.records, table, transaction, version, ref);
            && (answer.Some? ==>
                  exists id :: id in w.calls && w.calls[id] == Call(Request(table, answer.value), Created)
                    && (answer.value.transaction, answer.value.version, answer.value.ref)
                       == (transaction, version, ref))
            && (answer.Some? <==>
                  var key := AuthorKey(table, transaction, version);
                  Canonical(transaction) && key in w.records && w.records[key].Kept?
                  && w.records[key].record.ref == ref)
  {
    RunIsSound(steps);
    var w := Run(World(map[], map[]), steps);
    var key := AuthorKey(table, transaction, version);
    if Canonical(transaction) && key in w.records {
      var c :| CreatedBy(w, key, c);
      var q := w.calls[c].request;
      KeyIsInjective(table, transaction, version, q.table, q.record.transaction, q.record.version);
      assert w.calls[c] == Call(Request(table, w.records[key].record), Created);
    }
  }

  /** A created record answers for its ref and for no other until it is forgotten, whoever else calls. */
  lemma {:induction false} RecordedUntilForgotten(w: World, id: int, q: Request, steps: seq<Step>, ref: string)
    requires Canonical(q.record.transaction) && KeyOf(q) !in w.records && id !in w.calls
    requires forall s :: s in steps ==> s != Forget(q.table, q.record.transaction, q.record.version)
    ensures var after := Run(Next(w, Attempt(id, q)), steps);
            Recorded(after.records, q.table, q.record.transaction, q.record.version, ref)
            == if ref == q.record.ref then Some(q.record) else None
  {
    forall s | s in steps ensures !ForgetsKey(s, KeyOf(q)) {
      if s.Forget? {
        ForgettingForgetsOneCommit(s, q.table, q.record.transaction, q.record.version);
      }
    }
    WrittenOnce(Next(w, Attempt(id, q)), steps, KeyOf(q));
  }

  // ---------------------------------------------------------------- the code's own calls

  datatype AuthorError = InvalidTransactionUuid | AuthorRecorded

  predicate ActsFor(s: Step, id: int) {
    (s.Attempt? || s.ReadBack?) && s.id == id
  }

  predicate NobodyElseIs(others: seq<seq<Step>>, id: int) {
    forall steps, s :: steps in others && s in steps ==> !ActsFor(s, id)
  }

  /** How a call that ended answers. */
  function Answer(stage: Stage): Result<bool, AuthorError>
    requires stage != Lost
  {
    match stage
    case Created => Ok(true)
    case Again => Ok(false)
    case Refused => Err(AuthorRecorded)
    case Invalid => Err(InvalidTransactionUuid)
  }

  /** `others` is what everyone else does at each of the coming requests; `trace` is everything since `start`. */
  class Authors {
    var world: World
    var others: seq<seq<Step>>
    ghost const start: World
    ghost var trace: seq<Step>

    ghost predicate Good()
      reads this
    {
      world == Run(start, trace)
    }

    constructor (records: map<string, Body>, others: seq<seq<Step>>)
      ensures Good() && world == World(records, map[]) && trace == [] && this.others == others
    {
      world := World(records, map[]);
      start := World(records, map[]);
      this.others := others;
      trace := [];
    }

    method Do(s: Step)
      requires Good()
      modifies this
      ensures Good() && world == Next(old(world), s) && trace == old(trace) + [s] && others == old(others)
    {
      assert (trace + [s])[..|trace|] == trace;
      world := Next(world, s);
      trace := trace + [s];
    }

    method Interfere(ghost id: int)
      requires Good() && NobodyElseIs(others, id)
      modifies this
      ensures Good() && old(trace) <= trace && NobodyElseIs(others, id)
      ensures id in world.calls <==> id in old(world).calls
      ensures id in world.calls ==> world.calls[id] == old(world).calls[id]
      ensures old(others) == [] ==> world == old(world) && others == []
    {
      if others != [] {
        var steps := others[0];
        assert steps in others;
        others := others[1..];
        var i := 0;
        while i < |steps|
          invariant 0 <= i <= |steps|
          invariant Good() && old(trace) <= trace && others == old(others)[1..]
          invariant id in world.calls <==> id in old(world).calls
          invariant id in world.calls ==> world.calls[id] == old(world).calls[id]
        {
          assert !ActsFor(steps[i], id);
          Do(steps[i]);
          i := i + 1;
        }
      }
    }

    /** `record_author`, as call `id`. What it answers is what the machine's call ended in, so every theorem
        above speaks of it. Left alone, it creates exactly where nothing was kept, and changes nothing
        otherwise. */
    method RecordAuthor(id: int, table: string, record: CommitAuthor) returns (answer: Result<bool, AuthorError>)
      requires Good() && id !in world.calls && NobodyElseIs(others, id)
      modifies this
      ensures Good() && old(trace) <= trace
      ensures id in world.calls && world.calls[id].request == Request(table, record) && world.calls[id].stage != Lost
      ensures answer == Answer(world.calls[id].stage)
      ensures answer == Err(InvalidTransactionUuid) <==> !Canonical(record.transaction)
      ensures old(others) == [] && Canonical(record.transaction) ==>
        var key := AuthorKey(table, record.transaction, record.version);
        && (answer == Ok(true) <==> key !in old(world).records)
        && (answer == Ok(false)
            <==> && key in old(world).records && old(world).records[key].Kept?
                 && old(world).records[key].record.author == record.author
                 && old(world).records[key].record.ref == record.ref)
        && world.records == if answer == Ok(true) then old(world).records[key := Kept(record)] else old(world).records
    {
      hide Canonical, AuthorKey;
      var q := Request(table, record);
      if !Canonical(record.transaction) {
        Do(Attempt(id, q));
        return Err(InvalidTransactionUuid);
      }
      Interfere(id);
      Do(Attempt(id, q));
      if world.calls[id].stage == Created {
        return Ok(true);
      }
      Interfere(id);
      Do(ReadBack(id));
      return if world.calls[id].stage == Again then Ok(false) else Err(AuthorRecorded);
    }

    method ForgetAuthor(table: string, transaction: string, version: int)
      requires Good()
      modifies this
      ensures Good() && old(trace) <= trace
      ensures forall ref :: Recorded(world.records, table, transaction, version, ref) == None
      ensures forall t, x, v, ref :: (t, x, v) != (table, transaction, version) ==>
        Recorded(world.records, t, x, v, ref) == Recorded(old(world).records, t, x, v, ref)
    {
      Do(Forget(table, transaction, version));
      forall t, x, v, ref | (t, x, v) != (table, transaction, version)
        ensures Recorded(world.records, t, x, v, ref) == Recorded(old(world).records, t, x, v, ref)
      {
        if Canonical(transaction) && Canonical(x) {
          KeyIsInjective(t, x, v, table, transaction, version);
        }
      }
    }
  }
}
