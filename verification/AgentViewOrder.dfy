/** The order in which an agent view lists its entries (src/agent_view_eval.rs). */
module AgentViewOrder {
  import opened Options

  datatype Ordering = Less | Equal | Greater

  function Reverse(o: Ordering): Ordering {
    match o
    case Less => Greater
    case Equal => Equal
    case Greater => Less
  }

  /** `EvalValue`; the derived order puts the variants in this sequence. */
  datatype Value = Text(text: string) | ScopedId(scope: nat, id: string) | Flag(flag: bool) | Number(number: nat)

  function Rank(v: Value): nat {
    match v
    case Text(_) => 0
    case ScopedId(_, _) => 1
    case Flag(_) => 2
    case Number(_) => 3
  }

  function CompareNat(a: nat, b: nat): Ordering {
    if a < b then Less else if a == b then Equal else Greater
  }

  function CompareText(a: string, b: string): Ordering {
    if a == [] then (if b == [] then Equal else Less)
    else if b == [] then Greater
    else if a[0] == b[0] then CompareText(a[1..], b[1..])
    else if a[0] < b[0] then Less else Greater
  }

  /** The derived `Ord`: first the variant, then its fields. */
  function CompareValues(a: Value, b: Value): Ordering {
    match (a, b)
    case (Text(s), Text(t)) => CompareText(s, t)
    case (ScopedId(m, s), ScopedId(n, t)) => if m == n then CompareText(s, t) else CompareNat(m, n)
    case (Flag(x), Flag(y)) => if x == y then Equal else if y then Less else Greater
    case (Number(m), Number(n)) => CompareNat(m, n)
    case _ => CompareNat(Rank(a), Rank(b))
  }

  datatype SortOrder = Asc | Desc

  /** `compare_optional_values`: a missing value comes last in either direction. */
  function CompareOptional(a: Option<Value>, b: Option<Value>, order: SortOrder): Ordering {
    match (a, b)
    case (Some(x), Some(y)) => if order.Desc? then Reverse(CompareValues(x, y)) else CompareValues(x, y)
    case (Some(_), None) => Less
    case (None, Some(_)) => Greater
    case (None, None) => Equal
  }

  datatype SortField =
    | Token(token: string) | WorkspaceOrder | TabOrder | PaneOrder | Attention | Status | Agent | Seen | StateChangeSeq

  datatype Sort = Sort(field: SortField, order: SortOrder)

  datatype Entry = Entry(
    workspaceOrder: Option<nat>, tabOrder: Option<nat>, paneOrder: Option<nat>, attention: nat,
    status: string, agent: Option<string>, seen: bool, stateChangeSeq: Option<nat>, tokens: map<string, string>)

  function AsNumber(n: Option<nat>): Option<Value> {
    match n case Some(v) => Some(Number(v)) case None => None
  }

  /** `sort_value`. */
  function SortValue(e: Entry, field: SortField): Option<Value> {
    match field
    case Token(token) => if token in e.tokens then Some(Text(e.tokens[token])) else None
    case WorkspaceOrder => AsNumber(e.workspaceOrder)
    case TabOrder => AsNumber(e.tabOrder)
    case PaneOrder => AsNumber(e.paneOrder)
    case Attention => Some(Number(e.attention))
    case Status => Some(Text(e.status))
    case Agent => (match e.agent case Some(name) => Some(Text(name)) case None => None)
    case Seen => Some(Flag(e.seen))
    case StateChangeSeq => AsNumber(e.stateChangeSeq)
  }

  function CompareBy(a: Entry, b: Entry, sort: Sort): Ordering {
    CompareOptional(SortValue(a, sort.field), SortValue(b, sort.field), sort.order)
  }

  /** The first sort that tells the entries apart decides. */
  function Compare(a: Entry, b: Entry, sorts: seq<Sort>): Ordering {
    if sorts == [] then Equal
    else
      var first := CompareBy(a, b, sorts[0]);
      if first != Equal then first else Compare(a, b, sorts[1..])
  }

  /** `compare_entries`. */
  method CompareEntries(a: Entry, b: Entry, sorts: seq<Sort>) returns (o: Ordering)
    ensures o == Compare(a, b, sorts)
    ensures o == Less <==> exists k :: DecidedAt(a, b, sorts, k)
    ensures o == Greater <==> exists k :: DecidedAt(b, a, sorts, k)
  {
    CompareIsLexicographic(a, b, sorts);
    hide DecidedAt, CompareBy;
    for i := 0 to |sorts|
      invariant Compare(a, b, sorts) == Compare(a, b, sorts[i..])
    {
      var ordering := CompareBy(a, b, sorts[i]);
      assert sorts[i..][1..] == sorts[i + 1..];
      if ordering != Equal {
        return ordering;
      }
    }
    return Equal;
  }

  // --- Laws of one comparison ---

  /** Two comparisons of `a` with `b` and `b` with `c` compose to a third. */
  predicate Composes(ab: Ordering, bc: Ordering, ac: Ordering) {
    && (ab == Equal ==> ac == bc)
    && (bc == Equal ==> ac == ab)
    && (ab == bc ==> ac == ab)
  }

  lemma {:induction false} CompareTextLaws(a: string, b: string, c: string)
    ensures CompareText(b, a) == Reverse(CompareText(a, b))
    ensures CompareText(a, b) == Equal <==> a == b
    ensures Composes(CompareText(a, b), CompareText(b, c), CompareText(a, c))
    decreases |a| + |b| + |c|
  {
    if a != [] && b != [] {
      if c != [] {
        CompareTextLaws(a[1..], b[1..], c[1..]);
      } else {
        CompareTextLaws(a[1..], b[1..], c);
      }
      assert a == [a[0]] + a[1..] && b == [b[0]] + b[1..];
    }
  }

  lemma CompareValuesLaws(a: Value, b: Value, c: Value)
    ensures CompareValues(b, a) == Reverse(CompareValues(a, b))
    ensures CompareValues(a, b) == Equal <==> a == b
    ensures Composes(CompareValues(a, b), CompareValues(b, c), CompareValues(a, c))
  {
    hide CompareText;
    if a.Text? && b.Text? {
      CompareTextLaws(a.text, b.text, if c.Text? then c.text else []);
    } else if a.ScopedId? && b.ScopedId? {
      CompareTextLaws(a.id, b.id, if c.ScopedId? then c.id else []);
    }
  }

  lemma CompareByLaws(a: Entry, b: Entry, c: Entry, sort: Sort)
    ensures CompareBy(b, a, sort) == Reverse(CompareBy(a, b, sort))
    ensures Composes(CompareBy(a, b, sort), CompareBy(b, c, sort), CompareBy(a, c, sort))
  {
    hide CompareValues, SortValue;
    var (x, y, z) := (SortValue(a, sort.field), SortValue(b, sort.field), SortValue(c, sort.field));
    if x.Some? && y.Some? {
      CompareValuesLaws(x.value, y.value, if z.Some? then z.value else x.value);
    }
  }

  // --- Laws of the whole order ---

  /** Swapping the entries reverses the result, for every list of sorts. */
  lemma {:induction false} CompareReverses(a: Entry, b: Entry, sorts: seq<Sort>)
    ensures Compare(b, a, sorts) == Reverse(Compare(a, b, sorts))
  {
    if sorts != [] {
      CompareByLaws(a, b, a, sorts[0]);
      CompareReverses(a, b, sorts[1..]);
    }
  }

  /** Transitive, and equal entries are interchangeable: a total preorder together with `CompareReverses`. */
  lemma {:induction false} CompareComposes(a: Entry, b: Entry, c: Entry, sorts: seq<Sort>)
    ensures Composes(Compare(a, b, sorts), Compare(b, c, sorts), Compare(a, c, sorts))
  {
    if sorts != [] {
      CompareByLaws(a, b, c, sorts[0]);
      CompareComposes(a, b, c, sorts[1..]);
    }
  }

  /** Entries are equal in the order exactly when every sort sees the same value, or none, in both. */
  lemma {:induction false} EqualMeansSameValues(a: Entry, b: Entry, sorts: seq<Sort>)
    ensures Compare(a, b, sorts) == Equal <==>
              forall i :: 0 <= i < |sorts| ==> SortValue(a, sorts[i].field) == SortValue(b, sorts[i].field)
  {
    if sorts != [] {
      EqualMeansSameValues(a, b, sorts[1..]);
      var (x, y) := (SortValue(a, sorts[0].field), SortValue(b, sorts[0].field));
      if x.Some? && y.Some? {
        CompareValuesLaws(x.value, y.value, x.value);
      }
      assert CompareBy(a, b, sorts[0]) == Equal <==> x == y;
      assert forall i :: 1 <= i < |sorts| ==> sorts[i] == sorts[1..][i - 1];
    }
  }

  /** The first sort whose values differ decides; an entry without a value there comes last, either way. */
  lemma {:induction false} MissingValueComesLast(a: Entry, b: Entry, sorts: seq<Sort>, k: nat)
    requires k < |sorts|
    requires forall i :: 0 <= i < k ==> SortValue(a, sorts[i].field) == SortValue(b, sorts[i].field)
    requires SortValue(a, sorts[k].field).Some? && SortValue(b, sorts[k].field).None?
    ensures Compare(a, b, sorts) == Less && Compare(b, a, sorts) == Greater
  {
    if k > 0 {
      var x := SortValue(a, sorts[0].field);
      if x.Some? {
        CompareValuesLaws(x.value, x.value, x.value);
      }
      MissingValueComesLast(a, b, sorts[1..], k - 1);
    }
  }

  // --- Which way the order runs ---

  /** The texts agree up to position `k`, where the first ends or has the smaller character. */
  predicate DiffersAt(a: string, b: string, k: int) {
    0 <= k <= |a| && k < |b| && a[..k] == b[..k] && (k == |a| || a[k] < b[k])
  }

  /** Dictionary order: a proper prefix first, else the first differing character decides. */
  ghost predicate TextBefore(a: string, b: string) {
    exists k :: DiffersAt(a, b, k)
  }

  lemma {:induction false} CompareTextIsDictionary(a: string, b: string)
    ensures CompareText(a, b) == Less <==> TextBefore(a, b)
    decreases |a|
  {
    if a == [] || b == [] || a[0] != b[0] {
      assert b != [] ==> (DiffersAt(a, b, 0) <==> a == [] || a[0] < b[0]);
      forall k | DiffersAt(a, b, k)
        ensures DiffersAt(a, b, 0)
      {
        if k > 0 {
          assert a[..k][0] == b[..k][0];
        }
      }
    } else {
      CompareTextIsDictionary(a[1..], b[1..]);
      forall k: int
        ensures DiffersAt(a[1..], b[1..], k) ==> DiffersAt(a, b, k + 1)
        ensures k > 0 && DiffersAt(a, b, k) ==> DiffersAt(a[1..], b[1..], k - 1)
      {
        if DiffersAt(a[1..], b[1..], k) {
          assert a[..k + 1] == [a[0]] + a[1..][..k] && b[..k + 1] == [b[0]] + b[1..][..k];
        }
        if k > 0 && DiffersAt(a, b, k) {
          assert a[1..][..k - 1] == a[..k][1..] && b[1..][..k - 1] == b[..k][1..];
        }
      }
      assert !DiffersAt(a, b, 0);
      if CompareText(a, b) == Less {
        var k :| DiffersAt(a[1..], b[1..], k);
        assert DiffersAt(a, b, k + 1);
      }
      if TextBefore(a, b) {
        var k :| DiffersAt(a, b, k);
        assert DiffersAt(a[1..], b[1..], k - 1);
      }
    }
  }

  /** Texts before scoped ids before flags before numbers; within a kind, the smaller value first. */
  ghost predicate ValueBefore(a: Value, b: Value) {
    match a
    case Text(s) => !b.Text? || TextBefore(s, b.text)
    case ScopedId(m, s) =>
      b.Flag? || b.Number? || (b.ScopedId? && (m < b.scope || (m == b.scope && TextBefore(s, b.id))))
    case Flag(x) => b.Number? || (b.Flag? && !x && b.flag)
    case Number(m) => b.Number? && m < b.number
  }

  lemma CompareValuesIsBefore(a: Value, b: Value)
    ensures CompareValues(a, b) == Less <==> ValueBefore(a, b)
  {
    hide CompareText, TextBefore;
    if a.Text? && b.Text? {
      CompareTextIsDictionary(a.text, b.text);
    } else if a.ScopedId? && b.ScopedId? {
      CompareTextIsDictionary(a.id, b.id);
    }
  }

  /** The first entry goes first by its number: the smaller one ascending, the larger one descending. */
  predicate NumberFirst(a: Option<nat>, b: Option<nat>, order: SortOrder) {
    a.Some? && (b.None? || if order.Asc? then a.value < b.value else b.value < a.value)
  }

  ghost predicate TextFirst(a: Option<string>, b: Option<string>, order: SortOrder) {
    a.Some? && (b.None? || if order.Asc? then TextBefore(a.value, b.value) else TextBefore(b.value, a.value))
  }

  function TokenOf(e: Entry, token: string): Option<string> {
    if token in e.tokens then Some(e.tokens[token]) else None
  }

  /** One sort puts `a` before `b`, told from the field that the sort names. */
  ghost predicate GoesFirst(a: Entry, b: Entry, sort: Sort) {
    match sort.field
    case Token(token) => TextFirst(TokenOf(a, token), TokenOf(b, token), sort.order)
    case WorkspaceOrder => NumberFirst(a.workspaceOrder, b.workspaceOrder, sort.order)
    case TabOrder => NumberFirst(a.tabOrder, b.tabOrder, sort.order)
    case PaneOrder => NumberFirst(a.paneOrder, b.paneOrder, sort.order)
    case Attention => NumberFirst(Some(a.attention), Some(b.attention), sort.order)
    case Status => TextFirst(Some(a.status), Some(b.status), sort.order)
    case Agent => TextFirst(a.agent, b.agent, sort.order)
    case Seen => if sort.order.Asc? then !a.seen && b.seen else a.seen && !b.seen
    case StateChangeSeq => NumberFirst(a.stateChangeSeq, b.stateChangeSeq, sort.order)
  }

  lemma CompareByIsFirst(a: Entry, b: Entry, sort: Sort)
    ensures CompareBy(a, b, sort) == Less <==> GoesFirst(a, b, sort)
  {
    hide CompareValues, TextBefore;
    var (x, y) := (SortValue(a, sort.field), SortValue(b, sort.field));
    if x.Some? && y.Some? {
      CompareValuesIsBefore(x.value, y.value);
      CompareValuesIsBefore(y.value, x.value);
      CompareValuesLaws(x.value, y.value, x.value);
    }
  }

  /** The sorts before `k` rank neither entry first, and sort `k` ranks `a` first. */
  ghost predicate DecidedAt(a: Entry, b: Entry, sorts: seq<Sort>, k: int) {
    && 0 <= k < |sorts| && GoesFirst(a, b, sorts[k])
    && forall i :: 0 <= i < k ==> !GoesFirst(a, b, sorts[i]) && !GoesFirst(b, a, sorts[i])
  }

  /** The whole order, told from the fields: the first sort that ranks the entries decides, the way it runs. */
  lemma {:induction false} CompareIsLexicographic(a: Entry, b: Entry, sorts: seq<Sort>)
    ensures Compare(a, b, sorts) == Less <==> exists k :: DecidedAt(a, b, sorts, k)
    ensures Compare(a, b, sorts) == Greater <==> exists k :: DecidedAt(b, a, sorts, k)
  {
    hide GoesFirst, CompareBy;
    if sorts != [] {
      CompareByIsFirst(a, b, sorts[0]);
      CompareByIsFirst(b, a, sorts[0]);
      CompareByLaws(a, b, a, sorts[0]);
      CompareIsLexicographic(a, b, sorts[1..]);
      DecidedLater(a, b, sorts);
      DecidedLater(b, a, sorts);
    }
  }

  lemma DecidedLater(a: Entry, b: Entry, sorts: seq<Sort>)
    requires sorts != []
    ensures (exists k :: DecidedAt(a, b, sorts, k)) <==>
              || GoesFirst(a, b, sorts[0])
              || (!GoesFirst(b, a, sorts[0]) && exists k :: DecidedAt(a, b, sorts[1..], k))
  {
    hide GoesFirst;
    if GoesFirst(a, b, sorts[0]) {
      assert DecidedAt(a, b, sorts, 0);
    }
    if k :| DecidedAt(a, b, sorts, k) {
      if k > 0 {
        assert forall i :: 0 <= i < k ==> sorts[1..][i] == sorts[i + 1];
        assert !GoesFirst(b, a, sorts[0]);
        assert DecidedAt(a, b, sorts[1..], k - 1);
      }
    }
    if !GoesFirst(a, b, sorts[0]) && !GoesFirst(b, a, sorts[0]) && exists k :: DecidedAt(a, b, sorts[1..], k) {
      var k :| DecidedAt(a, b, sorts[1..], k);
      assert forall i :: 1 <= i <= k + 1 ==> sorts[i] == sorts[1..][i - 1];
      assert DecidedAt(a, b, sorts, k + 1);
    }
  }

  // --- Sorted lists ---

  ghost predicate Sorted(entries: seq<Entry>, sorts: seq<Sort>) {
    forall i :: 0 <= i < |entries| - 1 ==> Compare(entries[i], entries[i + 1], sorts) != Greater
  }

  /** Neighbours in order put the whole list in order. */
  lemma {:induction false} SortedPairs(entries: seq<Entry>, sorts: seq<Sort>, i: nat, j: nat)
    requires Sorted(entries, sorts) && i <= j < |entries|
    ensures Compare(entries[i], entries[j], sorts) != Greater
    decreases j - i
  {
    if i == j {
      EqualMeansSameValues(entries[i], entries[j], sorts);
    } else {
      SortedPairs(entries, sorts, i, j - 1);
      CompareComposes(entries[i], entries[j - 1], entries[j], sorts);
    }
  }

  /** In a sorted list the entries that lack the first sort's field form the tail. */
  lemma MissingEntriesFormTail(entries: seq<Entry>, sorts: seq<Sort>, i: nat, j: nat)
    requires Sorted(entries, sorts) && i <= j < |entries| && sorts != []
    requires SortValue(entries[i], sorts[0].field).None?
    ensures SortValue(entries[j], sorts[0].field).None?
  {
    SortedPairs(entries, sorts, i, j);
  }
}
