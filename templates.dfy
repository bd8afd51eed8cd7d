/**
 * RFC 6570 URI templates, Levels 1 and 2 (libapi/templates.py).
 *
 * The regular expression `\{([+#]?)(.*?)\}` becomes an explicit scanner,
 * `URITemplate` keeps the template text and the variables found in it,
 * bucketed by name, and `Expand` splices the replacements into a working
 * copy from the last expression to the first.
 */
module Templates {
  import opened Optional
  import opened Utf8
  import opened PercentEncoding

  /** One match of the expression pattern: its operator, its name and its span `[start, end)`. */
  datatype Variable = Variable(operator: string, variable: string, start: nat, end: nat)

  // ---------------------------------------------------------------------------
  // The expression pattern

  /** Neither '}' nor a newline occurs in `text[j..k]`. */
  predicate Clear(text: string, j: nat, k: nat)
    requires j <= k <= |text|
  {
    forall t :: j <= t < k ==> text[t] != '}' && text[t] != '\n'
  }

  /**
   * `v` is a match of `\{([+#]?)(.*?)\}` in `text`: a '{', an optional
   * operator, a name free of '}' and newlines, and the first '}' after it.
   * A name taken without operator never starts with '+' or '#', since the
   * pattern would have taken that character as the operator.
   */
  predicate IsExpressionAt(text: string, v: Variable) {
    && v.start + 2 + |v.operator| <= v.end <= |text|
    && text[v.start] == '{'
    && text[v.end - 1] == '}'
    && (v.operator == "" || v.operator == "+" || v.operator == "#")
    && text[v.start + 1 .. v.start + 1 + |v.operator|] == v.operator
    && text[v.start + 1 + |v.operator| .. v.end - 1] == v.variable
    && Clear(text, v.start + 1, v.end - 1)
    && (v.operator == "" && v.variable != "" ==> v.variable[0] != '+' && v.variable[0] != '#')
  }

  /** The first '}' at or after `j`, unless a newline comes first (`.` does not match a newline). */
  function FindClose(text: string, j: nat): (r: Option<nat>)
    requires j <= |text|
    ensures r.Some? ==> j <= r.value < |text| && text[r.value] == '}' && Clear(text, j, r.value)
    ensures r.None? ==> forall k :: j <= k < |text| && text[k] == '}' ==> !Clear(text, j, k)
    decreases |text| - j
  {
    if j == |text| then None
    else if text[j] == '}' then Some(j)
    else if text[j] == '\n' then None
    else FindClose(text, j + 1)
  }

  /**
   * The match of the pattern starting exactly at `i`, if any. Taking the
   * operator never changes where the match ends, since '+' and '#' are
   * neither '}' nor a newline, so the pattern's backtracking is not needed.
   */
  function MatchAt(text: string, i: nat): (r: Option<Variable>)
    requires i <= |text|
    ensures r.Some? ==> r.value.start == i && i + 2 <= r.value.end <= |text|
    ensures r.Some? <==> i < |text| && text[i] == '{' && exists k :: i < k < |text| && text[k] == '}' && Clear(text, i + 1, k)
  {
    if i == |text| || text[i] != '{' then None
    else match FindClose(text, i + 1)
      case None => None
      case Some(close) =>
        var op := if text[i + 1] == '+' || text[i + 1] == '#' then [text[i + 1]] else "";
        Some(Variable(op, text[i + 1 + |op| .. close], i, close + 1))
  }

  /** What `MatchAt` finds is a match of the pattern. */
  lemma MatchAtSound(text: string, i: nat)
    requires i <= |text|
    ensures MatchAt(text, i).Some? ==> IsExpressionAt(text, MatchAt(text, i).value)
  {
  }

  /** `FindClose` finds the first '}' when no newline and no other '}' comes before it. */
  lemma {:induction false} FindCloseFirst(text: string, j: nat, k: nat)
    requires j <= k < |text| && text[k] == '}' && Clear(text, j, k)
    ensures FindClose(text, j) == Some(k)
    decreases k - j
  {
    if j < k {
      FindCloseFirst(text, j + 1, k);
    }
  }

  /** The match at a position is the only one there: any match starting at `v.start` is `v`. */
  lemma MatchAtComplete(text: string, v: Variable)
    requires IsExpressionAt(text, v)
    ensures MatchAt(text, v.start) == Some(v)
  {
    FindCloseFirst(text, v.start + 1, v.end - 1);
    var m := MatchAt(text, v.start).value;
    if v.operator == "" {
      if v.variable != "" {
        assert text[v.start + 1] == v.variable[0];
      } else {
        assert v.end == v.start + 2 && text[v.start + 1] == '}';
      }
    } else {
      assert text[v.start + 1] == v.operator[0];
    }
    assert m.operator == v.operator;
  }

  /** The spans are in order and do not overlap. */
  predicate Ordered(ms: seq<Variable>) {
    forall a, b :: 0 <= a < b < |ms| ==> ms[a].end <= ms[b].start
  }

  /** The starts strictly increase along `ms`. */
  predicate Increasing(ms: seq<Variable>) {
    forall a, b :: 0 <= a < b < |ms| ==> ms[a].start < ms[b].start
  }

  /** `finditer` from position `i`: after a match resume at its end, otherwise at the next position. */
  function Scan(text: string, i: nat): seq<Variable>
    requires i <= |text|
    decreases |text| - i
  {
    if i == |text| then []
    else match MatchAt(text, i)
      case Some(v) => [v] + Scan(text, v.end)
      case None => Scan(text, i + 1)
  }

  /** Every span the scan from `i` returns is the match at its own start, at or after `i`. */
  lemma {:induction false} ScanSound(text: string, i: nat)
    requires i <= |text|
    ensures forall k :: 0 <= k < |Scan(text, i)| ==>
      i <= Scan(text, i)[k].start < |text| && MatchAt(text, Scan(text, i)[k].start) == Some(Scan(text, i)[k])
    decreases |text| - i
  {
    if i < |text| {
      match MatchAt(text, i)
      case Some(v) =>
        ScanSound(text, v.end);
        var rest := Scan(text, v.end);
        assert Scan(text, i) == [v] + rest;
        forall k | 0 < k < |[v] + rest|
          ensures ([v] + rest)[k] == rest[k - 1]
        {
        }
      case None =>
        ScanSound(text, i + 1);
    }
  }

  /** The spans the scan from `i` returns start at or after `i`. */
  lemma {:induction false} ScanAfter(text: string, i: nat)
    requires i <= |text|
    ensures forall k :: 0 <= k < |Scan(text, i)| ==> i <= Scan(text, i)[k].start
    decreases |text| - i
  {
    if i < |text| {
      match MatchAt(text, i)
      case Some(v) =>
        ScanAfter(text, v.end);
        var rest := Scan(text, v.end);
        assert Scan(text, i) == [v] + rest;
        forall k | 0 < k < |[v] + rest|
          ensures ([v] + rest)[k] == rest[k - 1]
        {
        }
      case None =>
        ScanAfter(text, i + 1);
    }
  }

  /** The spans the scan returns follow each other without overlapping. */
  lemma {:induction false} ScanOrdered(text: string, i: nat)
    requires i <= |text|
    ensures Ordered(Scan(text, i))
    decreases |text| - i
  {
    if i < |text| {
      match MatchAt(text, i)
      case Some(v) =>
        ScanOrdered(text, v.end);
        ScanAfter(text, v.end);
        var rest := Scan(text, v.end);
        var r := [v] + rest;
        assert Scan(text, i) == r;
        forall a, b | 0 <= a < b < |r|
          ensures r[a].end <= r[b].start
        {
          assert r[b] == rest[b - 1];
          if a > 0 {
            assert r[a] == rest[a - 1];
          }
        }
      case None =>
        ScanOrdered(text, i + 1);
    }
  }

  /** Every match of the pattern in `text`, left to right. */
  function Matches(text: string): seq<Variable> {
    Scan(text, 0)
  }

  /** The matches follow each other without overlapping, so their starts increase. */
  lemma MatchesIncreasing(text: string)
    ensures Ordered(Matches(text)) && Increasing(Matches(text))
  {
    ScanSound(text, 0);
    ScanOrdered(text, 0);
    var ms := Matches(text);
    forall k | 0 <= k < |ms|
      ensures ms[k].start < ms[k].end
    {
      assert MatchAt(text, ms[k].start) == Some(ms[k]);
    }
  }

  /** Every match is an occurrence of the pattern. */
  lemma MatchesWellFormed(text: string)
    ensures forall k :: 0 <= k < |Matches(text)| ==> IsExpressionAt(text, Matches(text)[k])
  {
    ScanSound(text, 0);
    var ms := Matches(text);
    forall k | 0 <= k < |ms|
      ensures IsExpressionAt(text, ms[k])
    {
      MatchAtSound(text, ms[k].start);
    }
  }

  /** Some span of `ms` contains position `p`. */
  predicate Covers(ms: seq<Variable>, p: nat) {
    exists k :: 0 <= k < |ms| && ms[k].start <= p < ms[k].end
  }

  /**
   * The scan is leftmost: no match of the pattern starts at a position that
   * the scan from `i` steps over, i.e. one inside none of the spans it returns.
   */
  lemma {:induction false} ScanLeftmost(text: string, i: nat, p: nat)
    requires i <= p < |text|
    requires !Covers(Scan(text, i), p)
    ensures MatchAt(text, p).None?
    decreases |text| - i
  {
    match MatchAt(text, i)
    case Some(v) =>
      var rest := Scan(text, v.end);
      assert Scan(text, i) == [v] + rest;
      assert Scan(text, i)[0] == v;
      assert forall k :: 0 <= k < |rest| ==> Scan(text, i)[k + 1] == rest[k];
      if p < v.end {
        assert false;
      } else {
        ScanLeftmost(text, v.end, p);
      }
    case None =>
      if p > i {
        ScanLeftmost(text, i + 1, p);
      }
  }

  /** A template has no expression exactly when no '{' is followed by a '}' without a newline between them. */
  lemma NoMatchesIff(text: string)
    ensures Matches(text) == [] <==>
      forall i, k :: 0 <= i < k < |text| && text[i] == '{' && text[k] == '}' ==> !Clear(text, i + 1, k)
  {
    if Matches(text) == [] {
      forall i, k | 0 <= i < k < |text| && text[i] == '{' && text[k] == '}'
        ensures !Clear(text, i + 1, k)
      {
        assert !Covers(Matches(text), i);
        ScanLeftmost(text, 0, i);
      }
    } else {
      ScanSound(text, 0);
      var v := Matches(text)[0];
      assert MatchAt(text, v.start).Some?;
    }
  }

  // ---------------------------------------------------------------------------
  // Buckets by name

  /** `variables[v.variable].append(v)` on a `defaultdict(list)`. */
  function Append(m: map<string, seq<Variable>>, v: Variable): map<string, seq<Variable>> {
    m[v.variable := (if v.variable in m then m[v.variable] else []) + [v]]
  }

  /** The dictionary after appending every match of `ms`, in order. */
  function Buckets(ms: seq<Variable>): map<string, seq<Variable>>
    decreases |ms|
  {
    if ms == [] then map[] else Append(Buckets(ms[..|ms| - 1]), ms[|ms| - 1])
  }

  /** The names occurring in `ms`. */
  function Names(ms: seq<Variable>): set<string> {
    set k | 0 <= k < |ms| :: ms[k].variable
  }

  /** The entries of `ms` named `name`, in their order in `ms`. */
  function Filter(ms: seq<Variable>, name: string): (r: seq<Variable>)
    ensures forall v :: v in r <==> v in ms && v.variable == name
  {
    if ms == [] then []
    else
      assert ms == [ms[0]] + ms[1..];
      (if ms[0].variable == name then [ms[0]] else []) + Filter(ms[1..], name)
  }

  /** The first entry of a sequence with increasing starts starts before all the others. */
  lemma HeadFirst(ms: seq<Variable>)
    requires Increasing(ms) && ms != []
    ensures forall w :: w in ms[1..] ==> ms[0].start < w.start
  {
    forall w | w in ms[1..]
      ensures ms[0].start < w.start
    {
      var k :| 0 <= k < |ms[1..]| && ms[1..][k] == w;
      assert ms[k + 1] == w;
    }
  }

  /** An entry that starts before all entries of an increasing sequence can go in front of it. */
  lemma ConsIncreasing(v: Variable, s: seq<Variable>)
    requires Increasing(s)
    requires forall w :: w in s ==> v.start < w.start
    ensures Increasing([v] + s)
  {
    var r := [v] + s;
    forall a, b | 0 <= a < b < |r|
      ensures r[a].start < r[b].start
    {
      assert r[b] == s[b - 1];
      if a > 0 {
        assert r[a] == s[a - 1];
      } else {
        assert s[b - 1] in s;
      }
    }
  }

  /** Filtering keeps the order of the entries it keeps. */
  lemma {:induction false} FilterIncreasing(ms: seq<Variable>, name: string)
    requires Increasing(ms)
    ensures Increasing(Filter(ms, name))
    decreases |ms|
  {
    if ms != [] {
      assert Increasing(ms[1..]);
      FilterIncreasing(ms[1..], name);
      if ms[0].variable == name {
        HeadFirst(ms);
        ConsIncreasing(ms[0], Filter(ms[1..], name));
      }
    }
  }

  /** No entry carries the name, so the filter is empty. */
  lemma {:induction false} FilterAbsent(ms: seq<Variable>, name: string)
    requires forall k :: 0 <= k < |ms| ==> ms[k].variable != name
    ensures Filter(ms, name) == []
    decreases |ms|
  {
    if ms != [] {
      assert forall k :: 0 <= k < |ms[1..]| ==> ms[1..][k] == ms[k + 1];
      FilterAbsent(ms[1..], name);
    }
  }

  /** Filtering a sequence with one more entry at the end. */
  lemma {:induction false} FilterSnoc(ms: seq<Variable>, v: Variable, name: string)
    ensures Filter(ms + [v], name) == Filter(ms, name) + (if v.variable == name then [v] else [])
    decreases |ms|
  {
    if ms == [] {
      assert [v][1..] == [];
    } else {
      assert (ms + [v])[1..] == ms[1..] + [v];
      FilterSnoc(ms[1..], v, name);
    }
  }

  /** The names of a sequence with one more entry at the end. */
  lemma NamesSnoc(ms: seq<Variable>, v: Variable)
    ensures Names(ms + [v]) == Names(ms) + {v.variable}
  {
    var all := ms + [v];
    assert all[|ms|] == v;
    forall name | name in Names(all)
      ensures name in Names(ms) + {v.variable}
    {
      var k :| 0 <= k < |all| && all[k].variable == name;
      if k < |ms| {
        assert all[k] == ms[k];
      }
    }
    forall name | name in Names(ms)
      ensures name in Names(all)
    {
      var k :| 0 <= k < |ms| && ms[k].variable == name;
      assert all[k] == ms[k];
    }
  }

  /** Appending an entry keeps every bucket equal to the filter of its name. */
  lemma AppendFilters(ms: seq<Variable>, v: Variable, m: map<string, seq<Variable>>, name: string)
    requires m.Keys == Names(ms)
    requires forall n :: n in m ==> m[n] == Filter(ms, n)
    requires name in Append(m, v)
    ensures Append(m, v)[name] == Filter(ms + [v], name)
  {
    FilterSnoc(ms, v, name);
    if name == v.variable && name !in m {
      forall k | 0 <= k < |ms|
        ensures ms[k].variable != name
      {
        assert ms[k].variable in Names(ms);
      }
      FilterAbsent(ms, name);
    }
  }

  /**
   * Each bucket holds exactly the matches with its name, in the order they
   * were found, and there is a bucket for every name that occurs and no other.
   */
  lemma {:induction false} BucketsAreFilters(ms: seq<Variable>)
    ensures Buckets(ms).Keys == Names(ms)
    ensures forall name :: name in Buckets(ms) ==> Buckets(ms)[name] == Filter(ms, name)
    decreases |ms|
  {
    if ms != [] {
      var init, last := ms[..|ms| - 1], ms[|ms| - 1];
      assert ms == init + [last];
      BucketsAreFilters(init);
      NamesSnoc(init, last);
      assert Buckets(ms) == Append(Buckets(init), last);
      forall name | name in Buckets(ms)
        ensures Buckets(ms)[name] == Filter(ms, name)
      {
        AppendFilters(init, last, Buckets(init), name);
      }
    }
  }

  /**
   * The parsed dictionary of a template is keyed by exactly the names found,
   * every match sits in the bucket of its name, and text without a match
   * gives no key at all.
   */
  lemma BucketKeys(text: string)
    ensures Buckets(Matches(text)).Keys == Names(Matches(text))
    ensures Matches(text) == [] ==> Buckets(Matches(text)) == map[]
    ensures forall v :: v in Matches(text) ==> v.variable in Buckets(Matches(text)) && v in Buckets(Matches(text))[v.variable]
  {
    var ms := Matches(text);
    BucketsAreFilters(ms);
    forall v | v in ms
      ensures v.variable in Buckets(ms) && v in Buckets(ms)[v.variable]
    {
      var k :| 0 <= k < |ms| && ms[k] == v;
      assert v.variable in Names(ms);
    }
  }

  /**
   * A bucket of the parsed dictionary is non-empty, holds only matches of
   * the pattern carrying its name, and lists them in increasing start.
   */
  lemma BucketOfMatches(text: string, name: string)
    requires name in Buckets(Matches(text))
    ensures Buckets(Matches(text))[name] != []
    ensures Increasing(Buckets(Matches(text))[name])
    ensures forall v :: v in Buckets(Matches(text))[name] ==> v.variable == name && v in Matches(text)
  {
    var ms := Matches(text);
    MatchesIncreasing(text);
    BucketsAreFilters(ms);
    FilterIncreasing(ms, name);
    var k :| 0 <= k < |ms| && ms[k].variable == name;
    assert ms[k] in Filter(ms, name);
    forall v | v in Filter(ms, name)
      ensures v.variable == name && v in ms
    {
    }
  }

  /** All entries of all buckets: `chain.from_iterable(variables.values())` as a set. */
  function Entries(variables: map<string, seq<Variable>>): set<Variable> {
    set name, v | name in variables && v in variables[name] :: v
  }

  /** The entries of the parsed dictionary are exactly the matches. */
  lemma EntriesOfBuckets(ms: seq<Variable>)
    ensures forall v :: v in Entries(Buckets(ms)) <==> v in ms
  {
    BucketsAreFilters(ms);
    forall v | v in ms
      ensures v in Entries(Buckets(ms))
    {
      var k :| 0 <= k < |ms| && ms[k] == v;
      assert v.variable in Names(ms);
    }
  }

  // ---------------------------------------------------------------------------
  // Ordering for expansion

  /** The starts strictly decrease along `s`. */
  predicate Decreasing(s: seq<Variable>) {
    forall a, b :: 0 <= a < b < |s| ==> s[a].start > s[b].start
  }

  function Reverse(s: seq<Variable>): (r: seq<Variable>)
    ensures |r| == |s| && forall i :: 0 <= i < |s| ==> r[i] == s[|s| - 1 - i]
  {
    if s == [] then [] else Reverse(s[1..]) + [s[0]]
  }

  /** Of two strictly decreasing sequences with the same elements, the first elements agree. */
  lemma HeadsAgree(a: seq<Variable>, b: seq<Variable>)
    requires Decreasing(a) && Decreasing(b) && a != [] && b != []
    requires forall v :: v in a <==> v in b
    ensures a[0] == b[0]
  {
    assert a[0] in b;
    var j :| 0 <= j < |b| && b[j] == a[0];
    assert b[0] in a;
    var i :| 0 <= i < |a| && a[i] == b[0];
    assert b[0].start >= b[j].start && a[0].start >= a[i].start;
  }

  /** Dropping an element that comes first in both sequences keeps the rest equal as sets. */
  lemma TailsAgree(a: seq<Variable>, b: seq<Variable>)
    requires Decreasing(a) && Decreasing(b) && a != [] && b != [] && a[0] == b[0]
    requires forall v :: v in a <==> v in b
    ensures forall v :: v in a[1..] <==> v in b[1..]
  {
    forall v | v in a[1..]
      ensures v in b[1..]
    {
      var k :| 0 <= k < |a[1..]| && a[1..][k] == v;
      assert a[k + 1] == v && v != a[0];
      assert v in b;
      var l :| 0 <= l < |b| && b[l] == v;
      assert b[1..][l - 1] == v;
    }
    forall v | v in b[1..]
      ensures v in a[1..]
    {
      var k :| 0 <= k < |b[1..]| && b[1..][k] == v;
      assert b[k + 1] == v && v != b[0];
      assert v in a;
      var l :| 0 <= l < |a| && a[l] == v;
      assert a[1..][l - 1] == v;
    }
  }

  /** Reversing twice gives the sequence back. */
  lemma ReverseReverse(s: seq<Variable>)
    ensures Reverse(Reverse(s)) == s
  {
    assert forall i :: 0 <= i < |s| ==> Reverse(Reverse(s))[i] == Reverse(s)[|s| - 1 - i];
  }

  /** Two strictly decreasing sequences with the same elements are equal. */
  lemma {:induction false} DecreasingUnique(a: seq<Variable>, b: seq<Variable>)
    requires Decreasing(a) && Decreasing(b)
    requires forall v :: v in a <==> v in b
    ensures a == b
    decreases |a|
  {
    if a != [] {
      assert a[0] in b;
    }
    if b != [] {
      assert b[0] in a;
    }
    if a != [] && b != [] {
      HeadsAgree(a, b);
      TailsAgree(a, b);
      assert Decreasing(a[1..]) && Decreasing(b[1..]);
      DecreasingUnique(a[1..], b[1..]);
      assert a == [a[0]] + a[1..];
      assert b == [b[0]] + b[1..];
    }
  }

  /** A non-empty set of entries has one with the largest start. */
  lemma {:induction false} LatestEntry(s: set<Variable>) returns (top: Variable)
    requires s != {}
    ensures top in s && forall w :: w in s ==> w.start <= top.start
    decreases |s|
  {
    var x :| x in s;
    var rest := s - {x};
    if rest == {} {
      top := x;
      forall w | w in s
        ensures w.start <= top.start
      {
        assert w !in rest;
      }
    } else {
      var y := LatestEntry(rest);
      top := if x.start <= y.start then y else x;
      forall w | w in s
        ensures w.start <= top.start
      {
        if w != x {
          assert w in rest;
        }
      }
    }
  }

  /**
   * `sorted(entries, key=attrgetter('start'), reverse=True)`: every entry
   * once, with non-increasing starts.
   */
  method SortByStartDescending(entries: set<Variable>) returns (order: seq<Variable>)
    ensures forall v :: v in order <==> v in entries
    ensures forall a, b :: 0 <= a < b < |order| ==> order[a].start >= order[b].start && order[a] != order[b]
  {
    order := [];
    var rest := entries;
    while rest != {}
      invariant forall v :: v in entries <==> v in rest || v in order
      invariant forall v :: v in rest ==> v !in order
      invariant forall a, b :: 0 <= a < b < |order| ==> order[a].start >= order[b].start && order[a] != order[b]
      invariant forall a, w :: 0 <= a < |order| && w in rest ==> order[a].start >= w.start
      decreases |rest|
    {
      ghost var top := LatestEntry(rest);
      var v :| v in rest && forall w :: w in rest ==> w.start <= v.start;
      order := order + [v];
      rest := rest - {v};
    }
  }

  /** Reversing a sequence of increasing starts gives one of decreasing starts with the same elements. */
  lemma ReverseIncreasing(ms: seq<Variable>)
    requires Increasing(ms)
    ensures Decreasing(Reverse(ms))
    ensures forall v :: v in Reverse(ms) <==> v in ms
  {
    var rev := Reverse(ms);
    forall v
      ensures v in rev <==> v in ms
    {
      if v in ms {
        var i :| 0 <= i < |ms| && ms[i] == v;
        assert rev[|ms| - 1 - i] == v;
      }
    }
  }

  /**
   * Entries in non-increasing start order, pairwise distinct, taken from a
   * sequence whose starts strictly increase, are in strictly decreasing order.
   */
  lemma DistinctStartsDecrease(order: seq<Variable>, ms: seq<Variable>)
    requires Increasing(ms)
    requires forall v :: v in order ==> v in ms
    requires forall a, b :: 0 <= a < b < |order| ==> order[a].start >= order[b].start && order[a] != order[b]
    ensures Decreasing(order)
  {
    forall a, b | 0 <= a < b < |order|
      ensures order[a].start > order[b].start
    {
      assert order[a] in ms && order[b] in ms;
      var i :| 0 <= i < |ms| && ms[i] == order[a];
      var j :| 0 <= j < |ms| && ms[j] == order[b];
      assert i != j;
    }
  }

  /** Sorting the parsed entries by descending start gives the matches from last to first. */
  lemma SortedIsReverse(text: string, order: seq<Variable>)
    requires forall v :: v in order <==> v in Matches(text)
    requires forall a, b :: 0 <= a < b < |order| ==> order[a].start >= order[b].start && order[a] != order[b]
    ensures order == Reverse(Matches(text))
  {
    MatchesIncreasing(text);
    DistinctStartsDecrease(order, Matches(text));
    ReverseIncreasing(Matches(text));
    DecreasingUnique(order, Reverse(Matches(text)));
  }

  // ---------------------------------------------------------------------------
  // Expansion

  /** `'' if value is None else str(value)`, with values already strings. */
  function ValueText(value: Option<string>): string {
    match value
    case None => ""
    case Some(s) => s
  }

  /**
   * What replaces the span of `v` (libapi/templates.py:62-74): nothing for
   * an absent name, otherwise the value encoded for the operator.
   */
  function Replacement(v: Variable, values: map<string, Option<string>>): string {
    if v.variable !in values then ""
    else
      var value := ValueText(values[v.variable]);
      if v.operator == "+" then PctEncode(value, true)
      else if v.operator == "#" then "#" + PctEncode(value, true)
      else PctEncode(value, false)
  }

  /** An absent name deletes the span; a name bound to `None` expands like one bound to the empty string. */
  lemma ReplacementAbsentOrNone(v: Variable, values: map<string, Option<string>>)
    ensures v.variable !in values ==> Replacement(v, values) == ""
    ensures Replacement(v, values[v.variable := None]) == Replacement(v, values[v.variable := Some("")])
  {
  }

  /**
   * Simple expansion is plain percent-encoding, so the value can be read
   * back: decoding the replacement gives the UTF-8 bytes of the value.
   */
  lemma SimpleReplacementDecodes(v: Variable, values: map<string, Option<string>>)
    requires v.operator == "" && v.variable in values
    ensures PctDecode(Replacement(v, values)) == Some(Encode(ValueText(values[v.variable])))
    ensures Decode(PctDecode(Replacement(v, values)).value) == Some(ValueText(values[v.variable]))
  {
    PlainRoundTrip(ValueText(values[v.variable]));
  }

  /**
   * Reserved expansion (`+`) and fragment expansion (`#`) give text that
   * reserved encoding leaves alone; the fragment form starts with '#'.
   */
  lemma ReservedReplacementStable(v: Variable, values: map<string, Option<string>>)
    requires v.variable in values && (v.operator == "+" || v.operator == "#")
    ensures var r := Replacement(v, values);
      && (v.operator == "+" ==> PctEncode(r, true) == r)
      && (v.operator == "#" ==> |r| >= 1 && r[0] == '#' && PctEncode(r[1..], true) == r[1..])
  {
    var value := ValueText(values[v.variable]);
    ReservedIdempotent(value);
    if v.operator == "#" {
      assert Replacement(v, values)[1..] == PctEncode(value, true);
    }
  }

  /** Every replacement is ASCII text. */
  lemma ReplacementIsAscii(v: Variable, values: map<string, Option<string>>)
    ensures IsAscii(Replacement(v, values))
  {
    if v.variable in values {
      var value := ValueText(values[v.variable]);
      OutputIsAscii(value, true);
      OutputIsAscii(value, false);
    }
  }

  /** The spans of `ms` are in order, within the text, and start at or after `pos`. */
  predicate Placed(text: string, ms: seq<Variable>, pos: nat) {
    && pos <= |text|
    && Ordered(ms)
    && forall k :: 0 <= k < |ms| ==> pos <= ms[k].start < ms[k].end <= |text|
  }

  /** The replacement of each span of `ms`, in the same order. */
  function Replacements(ms: seq<Variable>, values: map<string, Option<string>>): (reps: seq<string>)
    ensures |reps| == |ms|
  {
    if ms == [] then [] else [Replacement(ms[0], values)] + Replacements(ms[1..], values)
  }

  /** The `k`th replacement is that of the `k`th span. */
  lemma {:induction false} ReplacementsAt(ms: seq<Variable>, values: map<string, Option<string>>, k: nat)
    requires k < |ms|
    ensures Replacements(ms, values)[k] == Replacement(ms[k], values)
    decreases k
  {
    if k > 0 {
      ReplacementsAt(ms[1..], values, k - 1);
    }
  }

  /**
   * Left to right: the literal text before each span, then the span's
   * replacement `reps[k]`, then the rest of the text.
   */
  function ExpandFrom(text: string, ms: seq<Variable>, reps: seq<string>, pos: nat): string
    requires Placed(text, ms, pos) && |reps| == |ms|
    decreases |ms|
  {
    if ms == [] then text[pos..]
    else text[pos..ms[0].start] + reps[0] + ExpandFrom(text, ms[1..], reps[1..], ms[0].end)
  }

  /** The matches are placed within the text, in order. */
  lemma MatchesPlaced(text: string)
    ensures Placed(text, Matches(text), 0)
  {
    ScanSound(text, 0);
    ScanOrdered(text, 0);
    var ms := Matches(text);
    forall k | 0 <= k < |ms|
      ensures ms[k].start < ms[k].end <= |text|
    {
      assert MatchAt(text, ms[k].start) == Some(ms[k]);
    }
  }

  /** The expansion of a template: its literal text with every expression replaced. */
  function Expansion(text: string, values: map<string, Option<string>>): string {
    MatchesPlaced(text);
    ExpandFrom(text, Matches(text), Replacements(Matches(text), values), 0)
  }

  /** A template without expressions expands to itself, whatever the values. */
  lemma ExpansionWithoutExpressions(text: string, values: map<string, Option<string>>)
    requires Matches(text) == []
    ensures Expansion(text, values) == text
  {
    MatchesPlaced(text);
    assert text[0..] == text;
  }

  /** Spans whose names are bound alike in two value maps get the same replacements. */
  lemma {:induction false} ReplacementsAgree(ms: seq<Variable>, values: map<string, Option<string>>,
                                             other: map<string, Option<string>>)
    requires forall k :: 0 <= k < |ms| ==>
      (ms[k].variable in values <==> ms[k].variable in other)
      && (ms[k].variable in values ==> values[ms[k].variable] == other[ms[k].variable])
    ensures Replacements(ms, values) == Replacements(ms, other)
    decreases |ms|
  {
    if ms != [] {
      assert forall k :: 0 <= k < |ms[1..]| ==> ms[1..][k] == ms[k + 1];
      ReplacementsAgree(ms[1..], values, other);
      assert Replacement(ms[0], values) == Replacement(ms[0], other);
    }
  }

  /** The expansion reads only the values of names that occur in the template. */
  lemma ExpansionReadsOnlyItsNames(text: string, values: map<string, Option<string>>,
                                   other: map<string, Option<string>>)
    requires forall name :: name in Names(Matches(text)) ==>
      (name in values <==> name in other) && (name in values ==> values[name] == other[name])
    ensures Expansion(text, values) == Expansion(text, other)
  {
    var ms := Matches(text);
    forall k | 0 <= k < |ms|
      ensures ms[k].variable in Names(ms)
    {
    }
    ReplacementsAgree(ms, values, other);
  }

  /** Spans placed after `pos` are placed after the first span's start too. */
  lemma PlacedAtFirst(text: string, ms: seq<Variable>, pos: nat, p: nat)
    requires Placed(text, ms, pos)
    requires p == if ms == [] then |text| else ms[0].start
    ensures Placed(text, ms, p)
  {
    if ms != [] {
      forall k | 0 < k < |ms|
        ensures p <= ms[k].start
      {
        assert ms[0].end <= ms[k].start;
      }
    }
  }

  /** The spans after the first of a placed sequence are placed after its end. */
  lemma PlacedTail(text: string, ms: seq<Variable>, pos: nat)
    requires Placed(text, ms, pos) && ms != []
    ensures pos <= ms[0].start < ms[0].end <= |text|
    ensures Placed(text, ms[1..], ms[0].end)
  {
    forall k | 0 <= k < |ms[1..]|
      ensures ms[1..][k] == ms[k + 1] && ms[0].end <= ms[k + 1].start
    {
    }
  }

  /**
   * Concatenation is associative. A generic fact about sequences, not part
   * of the source: proofs below call it to regroup concatenations.
   */
  lemma ConcatAssoc(a: string, b: string, c: string)
    ensures a + b + c == a + (b + c)
  {
  }

  /** Before the first span, the expansion from `pos` is the gap up to it and the expansion from there. */
  lemma ExpandFromGap(text: string, ms: seq<Variable>, reps: seq<string>, pos: nat, p: nat)
    requires ms != [] && |reps| == |ms| && p == ms[0].start
    requires Placed(text, ms, pos) && Placed(text, ms, p)
    ensures pos <= p && ExpandFrom(text, ms, reps, pos) == text[pos..p] + ExpandFrom(text, ms, reps, p)
  {
    PlacedTail(text, ms, pos);
    var r, e := reps[0], ExpandFrom(text, ms[1..], reps[1..], ms[0].end);
    assert ExpandFrom(text, ms, reps, pos) == text[pos..p] + r + e;
    assert ExpandFrom(text, ms, reps, p) == text[p..p] + r + e;
    assert text[p..p] + r == r;
    ConcatAssoc(text[pos..p], r, e);
  }

  /** Moving `pos` up to the first span peels the gap off the front. */
  lemma GapShift(text: string, ms: seq<Variable>, reps: seq<string>, pos: nat, p: nat)
    requires Placed(text, ms, pos) && |reps| == |ms|
    requires p == if ms == [] then |text| else ms[0].start
    ensures Placed(text, ms, p)
    ensures ExpandFrom(text, ms, reps, pos) == text[pos..p] + ExpandFrom(text, ms, reps, p)
  {
    PlacedAtFirst(text, ms, pos, p);
    if ms == [] {
      assert text[pos..] == text[pos..p] + text[p..];
    } else {
      ExpandFromGap(text, ms, reps, pos, p);
    }
  }

  /** The suffix of a placed sequence is placed after the end of the element before it. */
  lemma PlacedSuffix(text: string, ms: seq<Variable>, i: nat)
    requires Placed(text, ms, 0) && 0 < i <= |ms|
    ensures Placed(text, ms[i..], ms[i - 1].end)
  {
  }

  /** Slicing a working copy whose prefix is the template text. */
  lemma SliceWorkingCopy(text: string, e: string, p: nat, lo: nat, hi: nat)
    requires lo <= hi <= p <= |text|
    ensures (text[..p] + e)[..lo] == text[..lo]
    ensures (text[..p] + e)[hi..] == text[hi..p] + e
  {
    var w := text[..p] + e;
    assert |w| == p + |e|;
    assert forall k :: 0 <= k < lo ==> w[k] == text[k];
    assert forall k :: 0 <= k < |w| - hi ==> w[hi..][k] == (text[hi..p] + e)[k];
  }

  /** A span that ends before placed spans begin can be put in front of them. */
  lemma PlacedCons(text: string, v: Variable, ms: seq<Variable>)
    requires v.start < v.end
    requires Placed(text, ms, v.end)
    ensures Placed(text, [v] + ms, v.start)
  {
    var all := [v] + ms;
    forall k | 0 < k < |all|
      ensures all[k] == ms[k - 1] && v.end <= all[k].start < all[k].end <= |text|
    {
    }
    forall a, b | 0 <= a < b < |all|
      ensures all[a].end <= all[b].start
    {
      if a > 0 {
        assert all[a] == ms[a - 1] && all[b] == ms[b - 1];
      }
    }
  }

  /** Unfolding the expansion at a span that starts at `pos`. */
  lemma ExpandCons(text: string, v: Variable, rep: string, ms: seq<Variable>, reps: seq<string>)
    requires v.start < v.end
    requires Placed(text, ms, v.end) && |reps| == |ms|
    ensures Placed(text, [v] + ms, v.start)
    ensures ExpandFrom(text, [v] + ms, [rep] + reps, v.start) == rep + ExpandFrom(text, ms, reps, v.end)
  {
    PlacedCons(text, v, ms);
    assert ([v] + ms)[0] == v && ([rep] + reps)[0] == rep;
    assert ([v] + ms)[1..] == ms && ([rep] + reps)[1..] == reps;
    assert text[v.start..v.start] == [];
  }

  /**
   * One splice step: replacing the span of `v` by `rep` in a working copy
   * whose prefix up to `p` is still the template text, where `v` ends by `p`.
   */
  lemma SpliceStep(text: string, v: Variable, rep: string, ms: seq<Variable>, reps: seq<string>,
                   p: nat, result: string)
    requires v.start < v.end
    requires Placed(text, ms, v.end) && |reps| == |ms|
    requires p == if ms == [] then |text| else ms[0].start
    requires Placed(text, ms, p)
    requires result == text[..p] + ExpandFrom(text, ms, reps, p)
    ensures Placed(text, [v] + ms, v.start)
    ensures v.end <= p <= |result|
    ensures result[..v.start] + rep + result[v.end..]
         == text[..v.start] + ExpandFrom(text, [v] + ms, [rep] + reps, v.start)
  {
    ExpandCons(text, v, rep, ms, reps);
    GapShift(text, ms, reps, v.end, p);
    var e := ExpandFrom(text, ms, reps, p);
    SliceWorkingCopy(text, e, p, v.start, v.end);
  }

  /**
   * One pass of the loop body of `expand`: the span of `v` is deleted when
   * its name has no value, and otherwise replaced by its encoded value.
   * `Replacement` is its specification.
   */
  method SpliceOne(result: string, v: Variable, values: map<string, Option<string>>) returns (next: string)
    requires v.start <= v.end <= |result|
    ensures next == result[..v.start] + Replacement(v, values) + result[v.end..]
  {
    if v.variable !in values {
      next := result[..v.start] + result[v.end..];
      assert Replacement(v, values) == "";
      assert next == result[..v.start] + "" + result[v.end..];
    } else {
      var value := ValueText(values[v.variable]);
      if v.operator == "+" {
        value := PctEncode(value, true);
      } else if v.operator == "#" {
        value := "#" + PctEncode(value, true);
      } else {
        value := PctEncode(value, false);
      }
      next := result[..v.start] + value + result[v.end..];
    }
  }

  /**
   * The loop invariant of `expand` once the spans `ms[j..]` are replaced by
   * `reps[j..]`: the working copy is the template text up to `p`, the start
   * of the last replaced span, followed by the expansion from there on.
   */
  predicate Spliced(text: string, ms: seq<Variable>, reps: seq<string>, j: nat, p: nat, result: string) {
    && j <= |ms| == |reps|
    && p == (if j == |ms| then |text| else ms[j].start)
    && Placed(text, ms[j..], p)
    && result == text[..p] + ExpandFrom(text, ms[j..], reps[j..], p)
  }

  /** Before the next pass, the span before `ms[j..]` lies within the working copy. */
  lemma SpliceBounds(text: string, ms: seq<Variable>, reps: seq<string>, j: nat, p: nat, result: string)
    requires Placed(text, ms, 0) && 0 < j
    requires Spliced(text, ms, reps, j, p, result)
    ensures ms[j - 1].start <= ms[j - 1].end <= p <= |result|
  {
    if j < |ms| {
      assert ms[j..][0] == ms[j];
    }
  }

  /** Replacing the span before `ms[j..]` by its replacement keeps the loop invariant. */
  lemma SpliceInvariantStep(text: string, ms: seq<Variable>, reps: seq<string>, j: nat, p: nat,
                            result: string, next: string)
    requires Placed(text, ms, 0) && 0 < j
    requires Spliced(text, ms, reps, j, p, result)
    requires ms[j - 1].end <= |result|
    requires next == result[..ms[j - 1].start] + reps[j - 1] + result[ms[j - 1].end..]
    ensures Spliced(text, ms, reps, j - 1, ms[j - 1].start, next)
  {
    var v := ms[j - 1];
    assert ms[j - 1..] == [v] + ms[j..];
    assert reps[j - 1..] == [reps[j - 1]] + reps[j..];
    PlacedSuffix(text, ms, j);
    SpliceStep(text, v, reps[j - 1], ms[j..], reps[j..], p, result);
  }

  /** Before the first pass, the working copy is the template text. */
  lemma SpliceStart(text: string, ms: seq<Variable>, reps: seq<string>)
    requires Placed(text, ms, 0) && |reps| == |ms|
    ensures Spliced(text, ms, reps, |ms|, |text|, text)
  {
    assert ms[|ms|..] == [] && reps[|ms|..] == [];
    assert text[..|text|] == text && text[|text|..] == [];
  }

  /** After a pass over every span, the working copy is the whole expansion. */
  lemma SpliceDone(text: string, ms: seq<Variable>, reps: seq<string>, p: nat, result: string)
    requires Placed(text, ms, 0)
    requires Spliced(text, ms, reps, 0, p, result)
    ensures result == ExpandFrom(text, ms, reps, 0)
  {
    assert ms[0..] == ms && reps[0..] == reps;
    GapShift(text, ms, reps, 0, p);
  }

  /** One pass of the loop of `expand`, with the loop invariant before and after it. */
  method SpliceNext(ghost text: string, ghost ms: seq<Variable>, ghost reps: seq<string>,
                    values: map<string, Option<string>>, v: Variable, ghost j: nat, ghost p: nat, result: string)
    returns (next: string)
    requires Placed(text, ms, 0) && 0 < j <= |ms|
    requires reps == Replacements(ms, values) && v == ms[j - 1]
    requires Spliced(text, ms, reps, j, p, result)
    ensures Spliced(text, ms, reps, j - 1, v.start, next)
  {
    SpliceBounds(text, ms, reps, j, p, result);
    ReplacementsAt(ms, values, j - 1);
    next := SpliceOne(result, v, values);
    SpliceInvariantStep(text, ms, reps, j, p, result, next);
  }

  /**
   * The loop of `expand`: starting from the template text, replace the
   * spans of `order` (the spans `ms`, last first), each at its recorded
   * offsets; the result is the left-to-right expansion with `reps`, the
   * replacements of `ms`.
   */
  method SpliceLastFirst(text: string, order: seq<Variable>, values: map<string, Option<string>>,
                   ghost ms: seq<Variable>, ghost reps: seq<string>)
    returns (result: string)
    requires Placed(text, ms, 0) && |order| == |ms|
    requires forall i :: 0 <= i < |order| ==> order[i] == ms[|ms| - 1 - i]
    requires reps == Replacements(ms, values)
    ensures result == ExpandFrom(text, ms, reps, 0)
  {
    result := text;
    ghost var p: nat := |text|;
    var i := 0;
    SpliceStart(text, ms, reps);
    while i < |order|
      invariant 0 <= i <= |order|
      invariant Spliced(text, ms, reps, |ms| - i, p, result)
    {
      var v := order[i];
      result := SpliceNext(text, ms, reps, values, v, |ms| - i, p, result);
      p := v.start;
      i := i + 1;
    }
    SpliceDone(text, ms, reps, p, result);
  }

  /** A template: its text, and the matches of the pattern in it bucketed by name. */
  class URITemplate {
    const text: string
    var variables: map<string, seq<Variable>>

    /** `variables` is what parsing `text` produces. */
    ghost predicate Valid()
      reads this
    {
      variables == Buckets(Matches(text))
    }

    /** `URITemplate(a)`: appends each match, left to right, to the bucket of its name. */
    constructor(a: string)
      ensures text == a && Valid()
      ensures variables.Keys == Names(Matches(a))
      ensures forall name :: name in variables ==> variables[name] == Filter(Matches(a), name)
    {
      text := a;
      variables := map[];
      new;
      var ms := Matches(a);
      var i := 0;
      while i < |ms|
        invariant 0 <= i <= |ms|
        invariant variables == Buckets(ms[..i])
      {
        var exp := ms[i];
        var v := Variable(exp.operator, exp.variable, exp.start, exp.end);
        ghost var before := variables;
        if v.variable in variables {
          variables := variables[v.variable := variables[v.variable] + [v]];
        } else {
          assert [] + [v] == [v];
          variables := variables[v.variable := [v]];
        }
        assert v == exp && variables == Append(before, exp);
        assert ms[..i + 1][..i] == ms[..i];
        assert Buckets(ms[..i + 1]) == Append(Buckets(ms[..i]), exp);
        i := i + 1;
      }
      assert ms[..i] == ms;
      BucketsAreFilters(ms);
    }

    /**
     * `sorted(chain.from_iterable(variables.values()), key=start, reverse=True)`:
     * the matches of the template, last first.
     */
    method EntriesLastFirst() returns (order: seq<Variable>)
      requires Valid()
      ensures order == Reverse(Matches(text))
    {
      order := SortByStartDescending(Entries(variables));
      EntriesOfBuckets(Matches(text));
      SortedIsReverse(text, order);
    }

    /**
     * `expand(values)`: the entries sorted by descending start, then each
     * span replaced in a working copy; the result is the left-to-right
     * expansion of the template.
     */
    method Expand(values: map<string, Option<string>>) returns (result: string)
      requires Valid()
      ensures result == Expansion(text, values)
    {
      var order := EntriesLastFirst();
      MatchesPlaced(text);
      assert Reverse(order) == Matches(text) by {
        ReverseReverse(Matches(text));
      }
      result := SpliceLastFirst(text, order, values, Matches(text), Replacements(Matches(text), values));
    }
  }
}
