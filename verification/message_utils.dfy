/** The message utilities of src/utils/ChatParser.js that work on the flat
    message list: `getConversationStats`, `filterMessages` and
    `sampleMessages`. A value that is not an array is `None`. */
module MessageUtils {
  import opened Wrappers
  import opened Seqs
  import opened Text
  import opened Messages
  import opened Grouping
  import opened StableSort
  import opened Tally
  import ChatParser

  /* ---------------------------------------------------------------
     getConversationStats
     --------------------------------------------------------------- */

  /** The number of models `topModels` keeps. */
  const TopModelCount: nat := 5

  /** Earliest and latest timestamp, in seconds; the source wraps them in
      `Date` objects. */
  datatype DateRange = DateRange(earliest: int, latest: int)

  /** `averageTenths` is ten times `averageMessagesPerConversation`. */
  datatype Stats = Stats(
    totalMessages: nat,
    totalConversations: nat,
    userMessages: nat,
    assistantMessages: nat,
    averageTenths: nat,
    dateRange: Option<DateRange>,
    topModels: seq<Entry>)

  const EmptyStats: Stats := Stats(0, 0, 0, 0, 0, None, [])

  /** `counts[k] || 0` on a counting map. */
  function CountOf(es: seq<Entry>, k: string): nat {
    if es == [] then 0
    else if es[0].key == k then es[0].count
    else CountOf(es[1..], k)
  }

  /** The roles of the messages, in order. */
  function Roles(msgs: seq<Message>): seq<string> {
    KeysOf(msgs, RoleOf)
  }

  /** The truthy `metadata.model` values, in order. */
  function Models(msgs: seq<Message>): (ms: seq<string>)
    ensures forall i :: 0 <= i < |ms| ==> ms[i] != ""
  {
    if msgs == [] then []
    else
      (match msgs[0].metadata.model
       case Some(m) => if m != "" then [m] else []
       case None => []) + Models(msgs[1..])
  }

  /** The truthy timestamps, in order. */
  function Timestamps(msgs: seq<Message>): (ts: seq<int>)
    ensures forall i :: 0 <= i < |ts| ==> ts[i] != 0
  {
    if msgs == [] then []
    else
      (match msgs[0].timestamp
       case Some(t) => if t != 0 then [t] else []
       case None => []) + Timestamps(msgs[1..])
  }

  function IntKey(t: int): int {
    t
  }

  /** `Math.round(n / c * 10)` for positive `c`: half-way cases round up. */
  function RoundedTenths(n: nat, c: nat): nat
    requires c > 0
  {
    (20 * n + c) / (2 * c)
  }

  /** `getConversationStats(messages)`. */
  function GetConversationStats(input: Option<seq<Message>>): (r: Stats)
    ensures r.totalMessages == 0 <==> input.None? || input.value == []
    ensures input.Some? ==> r.totalMessages == |input.value|
    ensures r.totalMessages == 0 ==> r == EmptyStats
  {
    if input.None? || input.value == [] then EmptyStats
    else
      var msgs := input.value;
      var conversations := |FirstOccurrences(KeysOf(msgs, ConversationOf))|;
      var roles := Count(Roles(msgs));
      var ts := Timestamps(msgs);
      var dateRange :=
        if ts == [] then None
        else
          var sorted := Sort(ts, IntKey);
          Some(DateRange(sorted[0], sorted[|sorted| - 1]));
      Stats(
        |msgs|,
        conversations,
        CountOf(roles, "user"),
        CountOf(roles, "assistant"),
        if conversations > 0 then RoundedTenths(|msgs|, conversations) else 0,
        dateRange,
        Top(Count(Models(msgs)), TopModelCount))
  }

  /** Looking a key up in the counts gives its number of occurrences. */
  lemma CountOfCount(xs: seq<string>, k: string)
    ensures CountOf(Count(xs), k) == Occurrences(xs, k)
  {
    var es := Count(xs);
    CountKeys(xs);
    if k in xs {
      var j :| 0 <= j < |xs| && xs[j] == k;
      CountCovers(xs, j);
      var i :| 0 <= i < |es| && EntryKeys(es)[i] == k;
      var p := CountOfFound(es, k, i);
      CountAt(xs, p);
    } else {
      CountOfMissing(es, k);
      SelectAbsent(xs, Id, k);
    }
  }

  /** The lookup finds the first entry with the key. */
  lemma {:induction false} CountOfFound(es: seq<Entry>, k: string, i: nat) returns (p: nat)
    requires i < |es| && es[i].key == k
    ensures p < |es| && es[p].key == k && CountOf(es, k) == es[p].count
  {
    if es[0].key == k {
      p := 0;
    } else {
      var q := CountOfFound(es[1..], k, i - 1);
      p := q + 1;
    }
  }

  lemma {:induction false} CountOfMissing(es: seq<Entry>, k: string)
    requires k !in EntryKeys(es)
    ensures CountOf(es, k) == 0
  {
    if es != [] {
      assert EntryKeys(es)[0] == es[0].key;
      assert forall x :: x in EntryKeys(es[1..]) ==> x in EntryKeys(es) by {
        forall x | x in EntryKeys(es[1..]) ensures x in EntryKeys(es) {
          var j :| 0 <= j < |es[1..]| && EntryKeys(es[1..])[j] == x;
          assert EntryKeys(es)[j + 1] == x;
        }
      }
      CountOfMissing(es[1..], k);
    }
  }

  /** Two different keys select at most the whole sequence between them. */
  lemma {:induction false} SelectTwo<T, K>(xs: seq<T>, key: T -> K, a: K, b: K)
    requires a != b
    ensures |Select(xs, key, a)| + |Select(xs, key, b)| <= |xs|
  {
    if xs != [] {
      SelectTwo(xs[..|xs| - 1], key, a, b);
    }
  }

  /** Every value counts once among the distinct values. */
  lemma {:induction false} FirstOccurrencesShorter<K>(ks: seq<K>)
    ensures |FirstOccurrences(ks)| <= |ks|
  {
    if ks != [] {
      FirstOccurrencesShorter(ks[..|ks| - 1]);
    }
  }

  /** Selecting among the keys counts as selecting among the elements. */
  lemma {:induction false} SelectKeysOf<T>(xs: seq<T>, key: T -> string, k: string)
    ensures Occurrences(KeysOf(xs, key), k) == |Select(xs, key, k)|
  {
    if xs != [] {
      var n := |xs| - 1;
      assert KeysOf(xs, key)[..n] == KeysOf(xs[..n], key);
      SelectKeysOf(xs[..n], key, k);
    }
  }

  /** The counts: all zero exactly for a non-array or empty input;
      otherwise the number of messages, of distinct conversations and of
      user and assistant messages, which add up to no more than the whole. */
  lemma StatsCounts(input: Option<seq<Message>>)
    ensures var r := GetConversationStats(input);
      r.totalMessages == 0 <==> input.None? || input.value == []
    ensures input.None? || input.value == [] ==> GetConversationStats(input) == EmptyStats
    ensures input.Some? && input.value != [] ==>
      var msgs := input.value; var r := GetConversationStats(input);
      && r.totalMessages == |msgs|
      && r.totalConversations == |FirstOccurrences(KeysOf(msgs, ConversationOf))|
      && 1 <= r.totalConversations <= r.totalMessages
      && r.userMessages == |Select(msgs, RoleOf, "user")|
      && r.assistantMessages == |Select(msgs, RoleOf, "assistant")|
      && r.userMessages + r.assistantMessages <= r.totalMessages
  {
    if input.Some? && input.value != [] {
      var msgs := input.value;
      var ks := KeysOf(msgs, ConversationOf);
      assert ks[0] in FirstOccurrences(ks);
      FirstOccurrencesShorter(ks);
      CountOfCount(Roles(msgs), "user");
      CountOfCount(Roles(msgs), "assistant");
      SelectKeysOf(msgs, RoleOf, "user");
      SelectKeysOf(msgs, RoleOf, "assistant");
      SelectTwo(msgs, RoleOf, "user", "assistant");
    }
  }

  /** `a` tenths is `n / c` rounded to tenths, half-way cases up:
      `10 * n / c` lies in `[a - 1/2, a + 1/2)`. */
  predicate RoundsTo(n: nat, c: nat, a: nat) {
    2 * c * a <= 20 * n + c < 2 * c * (a + 1)
  }

  /** The average is the number of messages per conversation, rounded to
      tenths. */
  lemma StatsAverage(msgs: seq<Message>)
    requires msgs != []
    ensures var r := GetConversationStats(Some(msgs));
      RoundsTo(|msgs|, r.totalConversations, r.averageTenths)
  {
    var r := GetConversationStats(Some(msgs));
    var c := r.totalConversations;
    assert c > 0 && r.averageTenths == RoundedTenths(|msgs|, c) by {
      StatsCounts(Some(msgs));
    }
    RoundedTenthsBounds(|msgs|, c);
  }

  lemma RoundedTenthsBounds(n: nat, c: nat)
    requires c > 0
    ensures RoundsTo(n, c, RoundedTenths(n, c))
  {
  }

  /** Every truthy timestamp comes from a message. */
  lemma {:induction false} TimestampsMembers(msgs: seq<Message>, t: int)
    ensures t in Timestamps(msgs) <==> t != 0 && exists i :: 0 <= i < |msgs| && msgs[i].timestamp == Some(t)
  {
    if msgs != [] {
      TimestampsMembers(msgs[1..], t);
      if i :| 1 <= i < |msgs| && msgs[i].timestamp == Some(t) {
        assert msgs[1..][i - 1] == msgs[i];
      }
      if t in Timestamps(msgs[1..]) {
        var i :| 0 <= i < |msgs[1..]| && msgs[1..][i].timestamp == Some(t);
        assert msgs[i + 1] == msgs[1..][i];
      }
    }
  }

  /** The date range is absent exactly when no message has a truthy
      timestamp; otherwise it spans from the smallest to the largest
      truthy timestamp, both of which some message carries. */
  lemma StatsDates(msgs: seq<Message>)
    requires msgs != []
    ensures var r := GetConversationStats(Some(msgs));
      r.dateRange.None? <==> forall i :: 0 <= i < |msgs| ==> TimeKey(msgs[i].timestamp) == 0
    ensures var r := GetConversationStats(Some(msgs));
      r.dateRange.Some? ==>
        && (exists i :: 0 <= i < |msgs| && msgs[i].timestamp == Some(r.dateRange.value.earliest))
        && (exists i :: 0 <= i < |msgs| && msgs[i].timestamp == Some(r.dateRange.value.latest))
        && forall i :: 0 <= i < |msgs| && TimeKey(msgs[i].timestamp) != 0 ==>
             r.dateRange.value.earliest <= TimeKey(msgs[i].timestamp) <= r.dateRange.value.latest
  {
    var ts := Timestamps(msgs);
    var r := GetConversationStats(Some(msgs));
    forall t ensures t in ts <==> t != 0 && exists i :: 0 <= i < |msgs| && msgs[i].timestamp == Some(t) {
      TimestampsMembers(msgs, t);
    }
    if ts == [] {
      forall i | 0 <= i < |msgs| ensures TimeKey(msgs[i].timestamp) == 0 {
        TimestampsMembers(msgs, TimeKey(msgs[i].timestamp));
      }
    } else {
      var sorted := Sort(ts, IntKey);
      assert r.dateRange == Some(DateRange(sorted[0], sorted[|sorted| - 1]));
      assert sorted[0] in ts && sorted[|sorted| - 1] in ts by {
        assert sorted[0] in multiset(sorted);
        assert sorted[|sorted| - 1] in multiset(sorted);
      }
      forall i | 0 <= i < |msgs| && TimeKey(msgs[i].timestamp) != 0
        ensures sorted[0] <= TimeKey(msgs[i].timestamp) <= sorted[|sorted| - 1]
      {
        var t := msgs[i].timestamp.value;
        assert t in ts;
        assert t in multiset(sorted);
        var p :| 0 <= p < |sorted| && sorted[p] == t;
        assert IntKey(sorted[0]) <= IntKey(sorted[p]) <= IntKey(sorted[|sorted| - 1]);
      }
      assert ts[0] != 0;
    }
  }

  /** The truthy models, model by model. */
  lemma {:induction false} ModelsMembers(msgs: seq<Message>, m: string)
    ensures m in Models(msgs) <==> m != "" && exists i :: 0 <= i < |msgs| && msgs[i].metadata.model == Some(m)
  {
    if msgs != [] {
      ModelsMembers(msgs[1..], m);
      if i :| 1 <= i < |msgs| && msgs[i].metadata.model == Some(m) {
        assert msgs[1..][i - 1] == msgs[i];
      }
      if m in Models(msgs[1..]) {
        var i :| 0 <= i < |msgs[1..]| && msgs[1..][i].metadata.model == Some(m);
        assert msgs[i + 1] == msgs[1..][i];
      }
    }
  }

  /** At most five models, distinct, each the model of some message and
      with its number of messages, most used first. */
  lemma StatsTopModels(msgs: seq<Message>)
    requires msgs != []
    ensures var top := GetConversationStats(Some(msgs)).topModels; var all := Models(msgs);
      && |top| == Min(TopModelCount, |FirstOccurrences(all)|)
      && Distinct(EntryKeys(top))
      && (forall i :: 0 <= i < |top| ==>
            && top[i].count == Occurrences(all, top[i].key)
            && exists j :: 0 <= j < |msgs| && msgs[j].metadata.model == Some(top[i].key))
      && (forall i, j :: 0 <= i < j < |top| ==> top[i].count >= top[j].count)
  {
    var all := Models(msgs);
    var top := Top(Count(all), TopModelCount);
    TopOfCount(all, TopModelCount);
    forall i | 0 <= i < |top| ensures exists j :: 0 <= j < |msgs| && msgs[j].metadata.model == Some(top[i].key) {
      ModelsMembers(msgs, top[i].key);
    }
  }

  /* ---------------------------------------------------------------
     filterMessages
     --------------------------------------------------------------- */

  /** The filter object. Dates are epoch milliseconds (a given `Date` is
      always truthy); `None` is an absent property. */
  datatype Filters = Filters(
    role: Option<string>,
    startDate: Option<int>,
    endDate: Option<int>,
    minLength: Option<int>,
    searchTerm: Option<string>)

  const NoFilters: Filters := Filters(None, None, None, None, None)

  /** `filters.role && filters.role !== 'all'`. */
  predicate RoleActive(f: Filters) {
    f.role.Some? && f.role.value != "" && f.role.value != "all"
  }

  predicate DatesActive(f: Filters) {
    f.startDate.Some? || f.endDate.Some?
  }

  predicate MinLengthActive(f: Filters) {
    f.minLength.Some? && f.minLength.value != 0
  }

  predicate SearchActive(f: Filters) {
    f.searchTerm.Some? && f.searchTerm.value != ""
  }

  predicate HasRole(f: Filters, m: Message) {
    f.role.Some? ==> m.role == f.role.value
  }

  /** The date test: a truthy timestamp whose time, in milliseconds, is not
      before the start nor after the end. */
  predicate InWindow(f: Filters, m: Message) {
    && m.timestamp.Some? && m.timestamp.value != 0
    && (f.startDate.Some? ==> !(m.timestamp.value * 1000 < f.startDate.value))
    && (f.endDate.Some? ==> !(m.timestamp.value * 1000 > f.endDate.value))
  }

  predicate LongEnough(f: Filters, m: Message) {
    f.minLength.Some? ==> |m.text| >= f.minLength.value
  }

  /** Case-insensitive substring of the text or the title. */
  predicate MatchesTerm(f: Filters, m: Message) {
    f.searchTerm.Some? ==>
      var term := Lower(f.searchTerm.value);
      Contains(Lower(m.text), term) || Contains(Lower(m.conversationTitle), term)
  }

  /** `filterMessages(messages, filters)`: the active filters in turn. */
  function FilterMessages(input: Option<seq<Message>>, f: Filters): (r: seq<Message>)
    ensures input.None? ==> r == []
    ensures input.Some? ==> |r| <= |input.value|
    ensures input.Some? ==> forall m :: m in r ==> m in input.value && Keeps(f, m)
  {
    match input
    case None => []
    case Some(msgs) =>
      var byRole := if RoleActive(f) then Filter(msgs, (m: Message) => HasRole(f, m)) else msgs;
      var byDate := if DatesActive(f) then Filter(byRole, (m: Message) => InWindow(f, m)) else byRole;
      var byLength := if MinLengthActive(f) then Filter(byDate, (m: Message) => LongEnough(f, m)) else byDate;
      if SearchActive(f) then Filter(byLength, (m: Message) => MatchesTerm(f, m)) else byLength
  }

  /** A message passes every active filter. */
  predicate Keeps(f: Filters, m: Message) {
    && (RoleActive(f) ==> HasRole(f, m))
    && (DatesActive(f) ==> InWindow(f, m))
    && (MinLengthActive(f) ==> LongEnough(f, m))
    && (SearchActive(f) ==> MatchesTerm(f, m))
  }

  lemma {:induction false} FilterFilter<T>(xs: seq<T>, p: T -> bool, q: T -> bool, pq: T -> bool)
    requires forall x :: pq(x) == (p(x) && q(x))
    ensures Filter(Filter(xs, p), q) == Filter(xs, pq)
  {
    if xs != [] {
      FilterFilter(xs[1..], p, q, pq);
    }
  }

  /** One filter pass that may be switched off. */
  lemma Stage<T>(xs: seq<T>, active: bool, p: T -> bool, q: T -> bool, pq: T -> bool, ys: seq<T>)
    requires ys == Filter(xs, p)
    requires forall x :: pq(x) == (p(x) && (active ==> q(x)))
    ensures (if active then Filter(ys, q) else ys) == Filter(xs, pq)
  {
    if active {
      FilterFilter(xs, p, q, pq);
    } else {
      FilterSame(xs, p, pq);
    }
  }

  lemma {:induction false} FilterSame<T>(xs: seq<T>, p: T -> bool, q: T -> bool)
    requires forall x :: p(x) == q(x)
    ensures Filter(xs, p) == Filter(xs, q)
  {
    if xs != [] {
      FilterSame(xs[1..], p, q);
    }
  }

  /** The passes together keep exactly the messages that pass every active
      filter, in their original order. */
  lemma FilterMeaning(msgs: seq<Message>, f: Filters)
    ensures FilterMessages(Some(msgs), f) == Filter(msgs, (m: Message) => Keeps(f, m))
  {
    var all := (m: Message) => true;
    var p1 := (m: Message) => RoleActive(f) ==> HasRole(f, m);
    var p2 := (m: Message) => p1(m) && (DatesActive(f) ==> InWindow(f, m));
    var p3 := (m: Message) => p2(m) && (MinLengthActive(f) ==> LongEnough(f, m));
    var p4 := (m: Message) => p3(m) && (SearchActive(f) ==> MatchesTerm(f, m));
    FilterAll(msgs, all);
    var byRole := if RoleActive(f) then Filter(msgs, (m: Message) => HasRole(f, m)) else msgs;
    Stage(msgs, RoleActive(f), all, (m: Message) => HasRole(f, m), p1, msgs);
    var byDate := if DatesActive(f) then Filter(byRole, (m: Message) => InWindow(f, m)) else byRole;
    Stage(msgs, DatesActive(f), p1, (m: Message) => InWindow(f, m), p2, byRole);
    var byLength := if MinLengthActive(f) then Filter(byDate, (m: Message) => LongEnough(f, m)) else byDate;
    Stage(msgs, MinLengthActive(f), p2, (m: Message) => LongEnough(f, m), p3, byDate);
    Stage(msgs, SearchActive(f), p3, (m: Message) => MatchesTerm(f, m), p4, byLength);
    FilterSame(msgs, p4, (m: Message) => Keeps(f, m));
  }

  /** A message is kept exactly when it is in the input and passes every
      active filter; the result keeps the input order, and a non-array gives
      nothing. */
  lemma FilterKeeps(input: Option<seq<Message>>, f: Filters, m: Message)
    ensures input.None? ==> FilterMessages(input, f) == []
    ensures input.Some? ==>
      && (m in FilterMessages(input, f) <==> m in input.value && Keeps(f, m))
      && IsSubsequence(FilterMessages(input, f), input.value)
  {
    if input.Some? {
      FilterMeaning(input.value, f);
      FilterIsSubsequence(input.value, (m: Message) => Keeps(f, m));
    }
  }

  /** Without active filters, and with the role 'all', the input comes back
      unchanged. */
  lemma FilterNothing(msgs: seq<Message>, f: Filters)
    requires !RoleActive(f) && !DatesActive(f) && !MinLengthActive(f) && !SearchActive(f)
    ensures FilterMessages(Some(msgs), f) == msgs
  {
  }

  /* ---------------------------------------------------------------
     sampleMessages
     --------------------------------------------------------------- */

  /** The default `maxMessages`. */
  const DefaultMaxMessages: int := 1000

  /** `Math.floor(i * step)` with `step = len / m`, in exact arithmetic. */
  function SpreadIndex(i: nat, len: nat, m: nat): nat
    requires m > 0
  {
    (i * len) / m
  }

  /** `m` messages picked evenly from `xs`: the loop of the `else` branch.
      It runs no turn when `m` is not positive. */
  function Spread(xs: seq<Message>, m: int): (r: seq<Message>)
    requires m <= 0 || |xs| > m
  {
    if m <= 0 then []
    else seq(m, i requires 0 <= i < m => SpreadIndexInRange(i, |xs|, m); xs[SpreadIndex(i, |xs|, m)])
  }

  lemma SpreadIndexInRange(i: nat, len: nat, m: nat)
    requires 0 < m < len && i < m
    ensures SpreadIndex(i, len, m) < len
  {
    Gap(i, m, len);
    MulComm(m, len);
    DivBelow(i * len, m, len);
  }

  /** The picked indices strictly increase and stay inside the
      conversation. */
  lemma SpreadIndicesIncrease(i: nat, j: nat, len: nat, m: nat)
    requires i < j < m < len
    ensures SpreadIndex(i, len, m) < SpreadIndex(j, len, m) < len
  {
    SpreadIndexInRange(j, len, m);
    Gap(i, j, len);
    DivStep(i * len, j * len, m);
  }

  /* Integer facts the solver needs spelled out. */

  lemma MulDistrib(x: int, y: int, z: int)
    ensures (x + y) * z == x * z + y * z
  {
  }

  lemma MulComm(x: int, y: int)
    ensures x * y == y * x
  {
  }

  lemma MulNonneg(x: nat, y: nat)
    ensures x * y >= 0
  {
  }

  lemma MulCancel(m: int, x: int, y: int)
    requires m > 0 && m * x < m * y
    ensures x < y
  {
  }

  lemma DivMod(b: int, m: int)
    requires m > 0
    ensures b == m * (b / m) + b % m && 0 <= b % m < m
  {
  }

  /** `a < m * len` implies `a / m < len`. */
  lemma DivBelow(a: nat, m: nat, len: nat)
    requires m > 0 && a < m * len
    ensures a / m < len
  {
  }

  lemma FloorMul(x: int, c: int)
    requires c > 0
    ensures c * (x / c) <= x
  {
  }

  lemma DivNegative(x: int, c: int)
    requires c > 0 && x < 0
    ensures x / c < 0
  {
  }

  /** `m * k <= b` implies `k <= b / m`. */
  lemma DivAtLeast(b: int, m: int, k: int)
    requires m > 0 && m * k <= b
    ensures k <= b / m
  {
    var q := b / m;
    DivMod(b, m);
    MulDistrib(q, 1, m);
    assert m * k < m * (q + 1);
    MulCancel(m, k, q + 1);
  }

  /** `i < j` implies `j * len >= i * len + len`. */
  lemma Gap(i: nat, j: nat, len: nat)
    requires i < j
    ensures j * len >= i * len + len
  {
    var d := j - i - 1;
    MulDistrib(i, d + 1, len);
    MulDistrib(d, 1, len);
    MulNonneg(d, len);
  }

  /** Adding at least `m` increases the quotient by `m`. */
  lemma DivStep(a: nat, b: nat, m: nat)
    requires m > 0 && b >= a + m
    ensures a / m < b / m
  {
    var q := a / m;
    DivMod(a, m);
    MulDistrib(q, 1, m);
    DivAtLeast(b, m, q + 1);
  }

  /** What one conversation contributes: all of it when it fits, else `m`
      evenly spread messages. */
  function Contribution(xs: seq<Message>, m: int): (r: seq<Message>)
    ensures |r| <= Max(m, 0)
    ensures forall x :: x in r ==> x in xs
  {
    if |xs| <= m then xs else Spread(xs, m)
  }

  function Contributions(gs: seq<Group<string, Message>>, m: int): (cs: seq<seq<Message>>)
    ensures |cs| == |gs|
    ensures forall i :: 0 <= i < |gs| ==> cs[i] == Contribution(gs[i].members, m)
  {
    seq(|gs|, i requires 0 <= i < |gs| => Contribution(gs[i].members, m))
  }

  /** `xs.slice(0, end)`: a negative end counts from the back. */
  function SliceTo(xs: seq<Message>, end: int): (r: seq<Message>)
    ensures |r| <= |xs| && r == xs[..|r|]
    ensures end >= 0 ==> |r| <= end
    ensures end >= |xs| ==> r == xs
  {
    if end >= 0 then xs[..Min(end, |xs|)] else xs[..Max(|xs| + end, 0)]
  }

  /** `Math.floor(maxMessages / conversations.length)`; with no
      conversation the loop has no turn, so the value is modelled as 0. */
  function PerConversation(max: int, conversations: nat): int {
    if conversations == 0 then 0 else max / conversations
  }

  /** `sampleMessages(messages, maxMessages)`. */
  function SampleMessages(input: Option<seq<Message>>, max: int): (r: Option<seq<Message>>)
    ensures r.None? <==> input.None?
    ensures input.Some? && |input.value| <= max ==> r == input
  {
    match input
    case None => None
    case Some(msgs) =>
      if |msgs| <= max then Some(msgs)
      else
        var gs := GroupBy(msgs, ConversationOf);
        var m := PerConversation(max, |gs|);
        Some(SliceTo(Flatten(Contributions(gs, m)), max))
  }

  /** At most `m` messages per conversation. */
  lemma {:induction false} ContributionsSize(gs: seq<Group<string, Message>>, m: int)
    requires m >= 0
    ensures |Flatten(Contributions(gs, m))| <= |gs| * m
  {
    if gs != [] {
      assert Contributions(gs, m)[1..] == Contributions(gs[1..], m);
      ContributionsSize(gs[1..], m);
      MulDistrib(|gs| - 1, 1, m);
    }
  }

  /** Nobody gets a message when `m` is not positive. */
  lemma {:induction false} ContributionsEmpty(gs: seq<Group<string, Message>>, m: int)
    requires m <= 0
    requires forall i :: 0 <= i < |gs| ==> gs[i].members != []
    ensures Flatten(Contributions(gs, m)) == []
  {
    ChatParser.FlattenEmpty(Contributions(gs, m));
  }

  lemma {:induction false} FlattenMember<T>(xss: seq<seq<T>>, x: T)
    requires x in Flatten(xss)
    ensures exists i :: 0 <= i < |xss| && x in xss[i]
  {
    if x !in xss[0] {
      FlattenMember(xss[1..], x);
      var i :| 0 <= i < |xss[1..]| && x in xss[1..][i];
      assert xss[i + 1] == xss[1..][i];
    }
  }

  /** Small inputs come back unchanged; a non-array comes back as it is. */
  lemma SampleSmall(input: Option<seq<Message>>, max: int)
    requires input.None? || |input.value| <= max
    ensures SampleMessages(input, max) == input
  {
  }

  /** A large input gives at most `max` messages, each from the input;
      when `max` is not negative the final slice cuts nothing. */
  lemma SampleLarge(msgs: seq<Message>, max: int)
    requires |msgs| > max
    ensures var r := SampleMessages(Some(msgs), max).value;
      var gs := GroupBy(msgs, ConversationOf); var m := PerConversation(max, |gs|);
      && |r| <= Max(max, 0)
      && (forall x :: x in r ==> x in msgs)
      && (max >= 0 ==> r == Flatten(Contributions(gs, m)))
  {
    var gs := GroupBy(msgs, ConversationOf);
    assert forall i :: 0 <= i < |gs| ==> forall x :: x in gs[i].members ==> x in msgs by {
      forall i | 0 <= i < |gs| ensures forall x :: x in gs[i].members ==> x in msgs {
        SelectMembers(msgs, ConversationOf, gs[i].key);
      }
    }
    SampleFrom(msgs, gs, max);
  }

  lemma SampleFrom(msgs: seq<Message>, gs: seq<Group<string, Message>>, max: int)
    requires forall i :: 0 <= i < |gs| ==> gs[i].members != []
    requires forall i :: 0 <= i < |gs| ==> forall x :: x in gs[i].members ==> x in msgs
    ensures var m := PerConversation(max, |gs|); var r := SliceTo(Flatten(Contributions(gs, m)), max);
      && |r| <= Max(max, 0)
      && (forall x :: x in r ==> x in msgs)
      && (max >= 0 ==> r == Flatten(Contributions(gs, m)))
  {
    var m := PerConversation(max, |gs|);
    var cs := Contributions(gs, m);
    var r := SliceTo(Flatten(cs), max);
    if max >= 0 {
      assert |Flatten(cs)| <= max by {
        if |gs| > 0 {
          ContributionsSize(gs, m);
          FloorMul(max, |gs|);
        }
      }
    } else {
      if |gs| > 0 {
        DivNegative(max, |gs|);
      }
      ContributionsEmpty(gs, m);
    }
    forall x | x in r ensures x in msgs {
      assert x in Flatten(cs);
      FlattenMember(cs, x);
    }
  }

  /** The sample keeps the conversation structure: selecting one
      conversation gives all of it when it has at most
      `m = floor(max / #conversations)` messages and `m` evenly spread
      ones otherwise. */
  lemma SamplePerConversation(msgs: seq<Message>, max: int, k: nat)
    requires |msgs| > max >= 0
    requires k < |GroupBy(msgs, ConversationOf)|
    ensures var gs := GroupBy(msgs, ConversationOf);
      Select(SampleMessages(Some(msgs), max).value, ConversationOf, gs[k].key)
        == Contribution(Select(msgs, ConversationOf, gs[k].key), PerConversation(max, |gs|))
  {
    var gs := GroupBy(msgs, ConversationOf);
    SampleLarge(msgs, max);
    OwnContributions(msgs, gs, PerConversation(max, |gs|), k);
  }

  lemma OwnContributions(msgs: seq<Message>, gs: seq<Group<string, Message>>, m: int, k: nat)
    requires Distinct(Keys(gs)) && k < |gs|
    requires forall i :: 0 <= i < |gs| ==> gs[i].members == Select(msgs, ConversationOf, gs[i].key)
    ensures Select(Flatten(Contributions(gs, m)), ConversationOf, gs[k].key) == Contribution(gs[k].members, m)
  {
    var cs := Contributions(gs, m);
    forall i | 0 <= i < |cs| ensures forall x: Message :: x in cs[i] ==> x.conversationId == Keys(gs)[i] {
      SelectMembers(msgs, ConversationOf, gs[i].key);
    }
    ChatParser.SelectOfFlatten(cs, Keys(gs), k);
  }

  /** Picked indices strictly increase and stay inside the conversation:
      the spread picks distinct messages in their original order. */
  lemma SpreadOrdered(xs: seq<Message>, m: int, i: nat, j: nat)
    requires 0 < m < |xs| && i < j < m
    ensures SpreadIndex(i, |xs|, m) < SpreadIndex(j, |xs|, m) < |xs|
    ensures Spread(xs, m)[i] == xs[SpreadIndex(i, |xs|, m)]
  {
    SpreadIndicesIncrease(i, j, |xs|, m);
  }

  /** With more conversations than `max` nobody gets a message. */
  lemma SampleTooManyConversations(msgs: seq<Message>, max: int)
    requires |msgs| > max >= 0
    requires |GroupBy(msgs, ConversationOf)| > max
    ensures SampleMessages(Some(msgs), max) == Some([])
  {
    var gs := GroupBy(msgs, ConversationOf);
    assert SampleMessages(Some(msgs), max) == Some(SliceTo(Flatten(Contributions(gs, PerConversation(max, |gs|))), max));
    TooManyConversations(gs, max);
  }

  lemma TooManyConversations(gs: seq<Group<string, Message>>, max: int)
    requires |gs| > max >= 0
    requires forall i :: 0 <= i < |gs| ==> gs[i].members != []
    ensures Flatten(Contributions(gs, PerConversation(max, |gs|))) == []
  {
    assert PerConversation(max, |gs|) == 0;
    ContributionsEmpty(gs, 0);
  }
}
