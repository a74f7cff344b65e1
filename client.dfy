/**
 * The computations embedded in the browser client `public/js/app.js`:
 * reading a comma-separated tag field, grouping history cards by day,
 * formatting today's date, summarising an import result and checking the
 * shape of an import file.
 */
module Client {
  import opened Optional
  import opened Text
  import opened Sorting
  import opened Kanban

  // ---------------------------------------------------------------------
  // The tag field
  // ---------------------------------------------------------------------

  /** `.map(tag => tag.trim()).filter(tag => tag)`: each piece trimmed, the empty ones dropped, in order. */
  function KeptTags(parts: seq<string>): seq<string> {
    if parts == [] then []
    else
      var t := Trim(parts[0]);
      (if t == "" then [] else [t]) + KeptTags(parts[1..])
  }

  /** Every kept tag is non-empty and trimmed, and holds no comma when no piece did. */
  lemma {:induction false} KeptTagsClean(parts: seq<string>)
    ensures forall i :: 0 <= i < |KeptTags(parts)| ==> KeptTags(parts)[i] != "" && Trimmed(KeptTags(parts)[i])
    ensures (forall j :: 0 <= j < |parts| ==> ',' !in parts[j]) ==> forall i :: 0 <= i < |KeptTags(parts)| ==> ',' !in KeptTags(parts)[i]
  {
    if parts != [] {
      KeptTagsClean(parts[1..]);
      var t := Trim(parts[0]);
      var first := if t == "" then [] else [t];
      var rest := KeptTags(parts[1..]);
      var r := KeptTags(parts);
      assert r == first + rest;
      forall i | 0 <= i < |r| ensures r[i] != "" && Trimmed(r[i]) && (',' !in parts[0] && (forall j :: 0 <= j < |rest| ==> ',' !in rest[j]) ==> ',' !in r[i]) {
        if i < |first| { assert r[i] == t; } else { assert r[i] == rest[i - |first|]; }
      }
      if forall j :: 0 <= j < |parts| ==> ',' !in parts[j] {
        assert ',' !in parts[0];
        assert forall j :: 0 <= j < |parts[1..]| ==> ',' !in parts[1..][j] by {
          forall j | 0 <= j < |parts[1..]| ensures ',' !in parts[1..][j] { assert parts[1..][j] == parts[j + 1]; }
        }
      }
    }
  }

  /** `value ? value.split(',').map(tag => tag.trim()).filter(tag => tag) : []`. */
  function ParseTags(field: Option<string>): (r: seq<string>)
    ensures field.None? || field.value == "" ==> r == []
    ensures forall i :: 0 <= i < |r| ==> r[i] != "" && Trimmed(r[i]) && ',' !in r[i]
  {
    if field.Some? && field.value != "" then
      var parts := Split(field.value, ',');
      KeptTagsClean(parts);
      KeptTags(parts)
    else []
  }

  lemma {:induction false} KeptTagsAppend(a: seq<string>, b: seq<string>)
    ensures KeptTags(a + b) == KeptTags(a) + KeptTags(b)
  {
    if a == [] {
      assert a + b == b;
    } else {
      assert (a + b)[0] == a[0] && (a + b)[1..] == a[1..] + b;
      KeptTagsAppend(a[1..], b);
    }
  }

  /** The emptiness test in front of the split changes nothing: an empty field splits into one empty piece, which is dropped. */
  lemma ParseTagsUnguarded(s: string)
    ensures ParseTags(Some(s)) == KeptTags(Split(s, ','))
  {
  }

  /** A field without a comma is one piece: its trim, or no tag when that is empty. */
  lemma ParseTagsPiece(s: string)
    requires ',' !in s
    ensures ParseTags(Some(s)) == (if Trim(s) == "" then [] else [Trim(s)])
  {
    SplitNoSeparator(s, ',');
    ParseTagsUnguarded(s);
    assert [s][1..] == [];
  }

  /** Pieces keep their order: the tags of `a,b` are the tags of `a` followed by those of `b`. */
  lemma ParseTagsConcat(a: string, b: string)
    ensures ParseTags(Some(a + "," + b)) == ParseTags(Some(a)) + ParseTags(Some(b))
  {
    assert a + "," + b == a + [','] + b;
    SplitConcat(a, ',', b);
    KeptTagsAppend(Split(a, ','), Split(b, ','));
    ParseTagsUnguarded(a);
    ParseTagsUnguarded(b);
  }

  lemma {:induction false} KeptTagsPadded(tags: seq<string>)
    requires forall i :: 0 <= i < |tags| ==> tags[i] != "" && Trimmed(tags[i])
    ensures KeptTags(Padded(tags, " ")) == tags
  {
    if tags != [] {
      var padded := Padded(tags, " ");
      assert padded[0] == " " + tags[0] && padded[1..] == Padded(tags[1..], " ");
      TrimSpaces(" ", tags[0]);
      KeptTagsPadded(tags[1..]);
      assert [tags[0]] + tags[1..] == tags;
    }
  }

  /**
   * The edit form shows a card's tags as `tags.join(', ')`; saving the form
   * unchanged reads back exactly those tags when each is non-empty, trimmed
   * and free of commas.
   */
  lemma ParseTagsOfJoined(tags: seq<string>)
    requires forall i :: 0 <= i < |tags| ==> tags[i] != "" && Trimmed(tags[i]) && ',' !in tags[i]
    ensures ParseTags(Some(Join(tags, ", "))) == tags
  {
    if tags != [] {
      assert ", " == [','] + " ";
      SplitJoinPadded(tags, ',', " ");
      ParseTagsUnguarded(Join(tags, ", "));
      KeptTagsOfPadded(tags);
    }
  }

  lemma KeptTagsOfPadded(tags: seq<string>)
    requires tags != []
    requires forall i :: 0 <= i < |tags| ==> tags[i] != "" && Trimmed(tags[i])
    ensures KeptTags([tags[0]] + Padded(tags[1..], " ")) == tags
  {
    KeptTagsAppend([tags[0]], Padded(tags[1..], " "));
    KeptTagsSingle(tags[0]);
    KeptTagsPadded(tags[1..]);
    assert [tags[0]] + tags[1..] == tags;
  }

  lemma KeptTagsSingle(t: string)
    requires t != "" && Trimmed(t)
    ensures KeptTags([t]) == [t]
  {
    TrimOfTrimmed(t);
    assert [t][1..] == [];
  }

  // ---------------------------------------------------------------------
  // History grouped by day
  // ---------------------------------------------------------------------

  /** The elements filed under one key, in the order they were listed. */
  datatype Group<T> = Group(key: string, members: seq<T>)

  /** The keys of `groups`, in order. */
  function Keys<T>(groups: seq<Group<T>>): (r: seq<string>)
    ensures |r| == |groups| && forall i :: 0 <= i < |groups| ==> r[i] == groups[i].key
  {
    if groups == [] then [] else [groups[0].key] + Keys(groups[1..])
  }

  /** The key `displayHistory` files a card under: `completed_at.split('T')[0]`, or 'unknown'. */
  function GroupKey(v: CardView): string {
    if v.card.completedAt.Some? && v.card.completedAt.value != "" then DateOf(v.card.completedAt.value) else "unknown"
  }

  function Identity(s: string): string { s }

  /** The elements of `s` filed under `k`, in order. */
  function Having<T, K(==)>(s: seq<T>, key: T -> K, k: K): seq<T> {
    if s == [] then []
    else Having(s[..|s| - 1], key, k) + (if key(s[|s| - 1]) == k then [s[|s| - 1]] else [])
  }

  /** An element is in the group of `k` exactly when it is an element of `s` filed under `k`. */
  lemma {:induction false} HavingMember<T, K>(s: seq<T>, key: T -> K, k: K, v: T)
    ensures v in Having(s, key, k) <==> v in s && key(v) == k
  {
    if s != [] {
      var front := s[..|s| - 1];
      HavingMember(front, key, k, v);
      assert s == front + [s[|s| - 1]];
    }
  }

  lemma HavingSnoc<T, K>(s: seq<T>, v: T, key: T -> K, k: K)
    ensures Having(s + [v], key, k) == Having(s, key, k) + (if key(v) == k then [v] else [])
  {
    assert (s + [v])[..|s|] == s;
  }

  lemma {:induction false} HavingAbsent<T, K>(s: seq<T>, key: T -> K, k: K)
    requires forall j :: 0 <= j < |s| ==> key(s[j]) != k
    ensures Having(s, key, k) == []
  {
    if s != [] {
      HavingAbsent(s[..|s| - 1], key, k);
    }
  }

  lemma DistinctSnoc<K>(keys: seq<K>, k: K)
    requires Distinct(keys) && k !in keys
    ensures Distinct(keys + [k])
  {
  }

  /** `grouped` files the elements of `pre` by key, and `keys` lists its keys once each in order of first appearance. */
  ghost predicate Filed<T, K>(pre: seq<T>, key: T -> K, grouped: map<K, seq<T>>, keys: seq<K>) {
    && (forall i :: 0 <= i < |keys| ==> keys[i] in grouped)
    && (forall k :: k in grouped ==> k in keys)
    && Distinct(keys)
    && (forall k :: k in grouped ==> grouped[k] == Having(pre, key, k) && grouped[k] != [])
    && (forall j :: 0 <= j < |pre| ==> key(pre[j]) in grouped)
  }

  /** Filing the next element of `s` under its key keeps the filing exact. */
  lemma FileStep<T, K>(s: seq<T>, n: nat, key: T -> K, grouped: map<K, seq<T>>, keys: seq<K>)
    requires n < |s|
    requires Filed(s[..n], key, grouped, keys)
    ensures var k := key(s[n]);
      Filed(s[..n + 1], key,
            grouped[k := (if k in grouped then grouped[k] else []) + [s[n]]],
            if k in grouped then keys else keys + [k])
  {
    var pre, v := s[..n], s[n];
    assert s[..n + 1] == pre + [v];
    var k := key(v);
    var prior := if k in grouped then grouped[k] else [];
    var after := grouped[k := prior + [v]];
    var keys' := if k in grouped then keys else keys + [k];
    if k !in grouped {
      forall j | 0 <= j < |pre| ensures key(pre[j]) != k {
        assert key(pre[j]) in grouped;
      }
      HavingAbsent(pre, key, k);
      DistinctSnoc(keys, k);
    }
    forall k' | k' in after ensures after[k'] == Having(pre + [v], key, k') && after[k'] != [] {
      HavingSnoc(pre, v, key, k');
    }
    forall j | 0 <= j < |pre + [v]| ensures key((pre + [v])[j]) in after {
      if j < |pre| {
        assert (pre + [v])[j] == pre[j];
      }
    }
    forall i | 0 <= i < |keys'| ensures keys'[i] in after {
      if i < |keys| {
        assert keys'[i] == keys[i];
      }
    }
  }

  /** A complete filing, spelt out. */
  lemma FiledFacts<T, K>(s: seq<T>, key: T -> K, grouped: map<K, seq<T>>, keys: seq<K>)
    requires Filed(s[..|s|], key, grouped, keys)
    ensures forall k :: k in grouped <==> k in keys
    ensures Distinct(keys)
    ensures forall k :: k in grouped ==> grouped[k] == Having(s, key, k) && grouped[k] != []
    ensures forall j :: 0 <= j < |s| ==> key(s[j]) in grouped
  {
    assert s[..|s|] == s;
  }

  /**
   * The `forEach` of displayHistory: every element appended to the list of
   * its key, keys remembered in the order they first appear.
   */
  method FileByKey<T, K(==)>(s: seq<T>, key: T -> K) returns (grouped: map<K, seq<T>>, keys: seq<K>)
    ensures forall k :: k in grouped <==> k in keys
    ensures Distinct(keys)
    ensures forall k :: k in grouped ==> grouped[k] == Having(s, key, k) && grouped[k] != []
    ensures forall j :: 0 <= j < |s| ==> key(s[j]) in grouped
  {
    grouped := map[];
    keys := [];
    var n := 0;
    while n < |s|
      invariant 0 <= n <= |s|
      invariant Filed(s[..n], key, grouped, keys)
    {
      var k := key(s[n]);
      FileStep(s, n, key, grouped, keys);
      grouped, keys := grouped[k := (if k in grouped then grouped[k] else []) + [s[n]]],
                       if k in grouped then keys else keys + [k];
      n := n + 1;
    }
    FiledFacts(s, key, grouped, keys);
  }

  /**
   * Filing followed by `Object.keys(...).sort().reverse()`: the groups come
   * out in strictly descending key order, each holding exactly the elements
   * of its key in input order, and every element has its group.
   */
  method GroupNewestFirst<T>(s: seq<T>, key: T -> string) returns (groups: seq<Group<T>>)
    ensures forall i, j :: 0 <= i < j < |groups| ==> Lt(groups[j].key, groups[i].key)
    ensures forall i :: 0 <= i < |groups| ==> groups[i].members == Having(s, key, groups[i].key) && groups[i].members != []
    ensures forall j :: 0 <= j < |s| ==> key(s[j]) in Keys(groups)
  {
    var grouped, keys := FileByKey(s, key);
    var order := SortDesc(keys, Identity);
    NewestFirst(keys);
    groups := ListGroups(order, grouped);
    GroupsOfOrder(s, key, grouped, keys, order, groups);
  }

  /** `sortedDates.forEach(...)`: one group per key of `order`, in that order. */
  method ListGroups<T>(order: seq<string>, grouped: map<string, seq<T>>) returns (groups: seq<Group<T>>)
    requires forall g :: 0 <= g < |order| ==> order[g] in grouped
    ensures |groups| == |order|
    ensures forall g :: 0 <= g < |order| ==> groups[g] == Group(order[g], grouped[order[g]])
  {
    groups := [];
    var i := 0;
    while i < |order|
      invariant 0 <= i <= |order|
      invariant |groups| == i
      invariant forall g :: 0 <= g < i ==> groups[g] == Group(order[g], grouped[order[g]])
    {
      groups := groups + [Group(order[i], grouped[order[i]])];
      i := i + 1;
    }
  }

  /** The groups listed in `order`, each with its filed elements, meet GroupNewestFirst's promise. */
  lemma GroupsOfOrder<T>(s: seq<T>, key: T -> string, grouped: map<string, seq<T>>, keys: seq<string>,
                         order: seq<string>, groups: seq<Group<T>>)
    requires forall k :: k in grouped <==> k in keys
    requires Distinct(keys)
    requires forall k :: k in grouped ==> grouped[k] == Having(s, key, k) && grouped[k] != []
    requires forall j :: 0 <= j < |s| ==> key(s[j]) in grouped
    requires order == SortDesc(keys, Identity)
    requires |groups| == |order|
    requires forall g :: 0 <= g < |order| ==> order[g] in grouped && groups[g] == Group(order[g], grouped[order[g]])
    ensures forall i, j :: 0 <= i < j < |groups| ==> Lt(groups[j].key, groups[i].key)
    ensures forall i :: 0 <= i < |groups| ==> groups[i].members == Having(s, key, groups[i].key) && groups[i].members != []
    ensures forall j :: 0 <= j < |s| ==> key(s[j]) in Keys(groups)
  {
    NewestFirst(keys);
    assert Keys(groups) == order;
  }

  /**
   * displayHistory's grouping of the history by completion day (the
   * `if (cards.length === 0)` early return gives no groups, as the general
   * case also does for no cards). Days come out newest first, each holding
   * exactly the cards completed that day, in the order the history listed
   * them, and every card has its day.
   */
  method GroupHistory(history: seq<CardView>) returns (groups: seq<Group<CardView>>)
    ensures history == [] ==> groups == []
    ensures forall i, j :: 0 <= i < j < |groups| ==> Lt(groups[j].key, groups[i].key)
    ensures forall i :: 0 <= i < |groups| ==> groups[i].members == Having(history, GroupKey, groups[i].key) && groups[i].members != []
    ensures forall v :: v in history ==> GroupKey(v) in Keys(groups)
  {
    if |history| == 0 {
      return [];
    }
    groups := GroupNewestFirst(history, GroupKey);
    forall v | v in history ensures GroupKey(v) in Keys(groups) {
      var key := GroupKey;
      var j :| 0 <= j < |history| && history[j] == v;
      assert key(history[j]) in Keys(groups);
    }
  }

  /** `keys.sort().reverse()` on distinct keys: the same keys, strictly descending. */
  lemma NewestFirst(keys: seq<string>)
    requires Distinct(keys)
    ensures var order := SortDesc(keys, Identity);
      (forall a, b :: 0 <= a < b < |order| ==> Lt(order[b], order[a])) && (forall k :: k in order <==> k in keys)
  {
    var order := SortDesc(keys, Identity);
    DistinctPermutation(keys, order);
    forall k ensures k in order <==> k in keys {
      assert k in order <==> k in multiset(order);
    }
    forall a, b | 0 <= a < b < |order| ensures Lt(order[b], order[a]) {
      assert Le(Identity(order[b]), Identity(order[a]));
    }
  }

  /** A history card with a completion stamp is filed under its completion day. */
  lemma GroupKeyOfCompleted(v: CardView, day: string, time: string)
    requires 'T' !in day
    requires v.card.completedAt == Some(day + "T" + time)
    ensures GroupKey(v) == day
  {
    DateOfIso(day, time);
  }

  // ---------------------------------------------------------------------
  // Today's date
  // ---------------------------------------------------------------------

  /** `String(x).padStart(2, '0')`. */
  function PadStart2(s: string): (r: string)
    ensures |s| >= 2 ==> r == s
    ensures |s| < 2 ==> r == seq(2 - |s|, _ => '0') + s
  {
    if |s| >= 2 then s else if |s| == 1 then "0" + s else assert s == []; "00"
  }

  /**
   * setTodayDate's text: the year, then the month (`getMonth()` counts
   * from 0) and the day of the month, each padded to two digits.
   */
  function DateString(year: int, monthIndex: int, day: int): string
    requires 0 <= monthIndex <= 11 && 1 <= day <= 31
  {
    IntToString(year) + "-" + PadStart2(NatToString(monthIndex + 1)) + "-" + PadStart2(NatToString(day))
  }

  /** A two-digit field of a date, as padStart leaves it. */
  lemma TwoDigits(n: nat)
    requires 1 <= n <= 31
    ensures var s := PadStart2(NatToString(n));
      |s| == 2 && IsDigit(s[0]) && IsDigit(s[1]) && DecimalValue(s) == n
  {
    NatToStringLength(n);
    DecimalRoundTrip(n);
    if n < 10 {
      DecimalLeadingZero(NatToString(n));
    }
  }

  /** Reads `YYYY-MM-DD` back: three dash-separated numerals. */
  function ParseDateString(s: string): Option<(nat, nat, nat)> {
    var parts := Split(s, '-');
    if |parts| == 3 && AllDigits(parts[0]) && AllDigits(parts[1]) && AllDigits(parts[2]) then
      Some((DecimalValue(parts[0]), DecimalValue(parts[1]), DecimalValue(parts[2])))
    else None
  }

  predicate AllDigits(s: string) {
    forall i :: 0 <= i < |s| ==> IsDigit(s[i])
  }

  /**
   * The date text reads back as the year, the calendar month (one more
   * than `getMonth()`) and the day; for a four-digit year it is ten
   * characters long.
   */
  lemma DateStringRoundTrip(year: nat, monthIndex: int, day: int)
    requires 0 <= monthIndex <= 11 && 1 <= day <= 31
    ensures ParseDateString(DateString(year, monthIndex, day)) == Some((year, monthIndex + 1, day))
    ensures 1000 <= year <= 9999 ==> |DateString(year, monthIndex, day)| == 10
  {
    var y := NatToString(year);
    var mm := PadStart2(NatToString(monthIndex + 1));
    var dd := PadStart2(NatToString(day));
    TwoDigits(monthIndex + 1);
    TwoDigits(day);
    DecimalRoundTrip(year);
    NatToStringLength(year);
    DigitsDashFree(y);
    DigitsDashFree(mm);
    DigitsDashFree(dd);
    assert DateString(year, monthIndex, day) == y + ['-'] + mm + ['-'] + dd;
    SplitThree(y, mm, dd, '-');
  }

  lemma DigitsDashFree(s: string)
    requires AllDigits(s)
    ensures '-' !in s
  {
    forall i | 0 <= i < |s| ensures s[i] != '-' {
      assert IsDigit(s[i]);
    }
  }

  /** Three separator-free pieces joined by the separator split back into themselves. */
  lemma SplitThree(a: string, b: string, c: string, sep: char)
    requires sep !in a && sep !in b && sep !in c
    ensures Split(a + [sep] + b + [sep] + c, sep) == [a, b, c]
  {
    assert a + [sep] + b + [sep] + c == a + [sep] + (b + [sep] + c);
    SplitAtSeparator(a, sep, b + [sep] + c);
    SplitAtSeparator(b, sep, c);
    SplitNoSeparator(c, sep);
  }

  // ---------------------------------------------------------------------
  // The import summary
  // ---------------------------------------------------------------------

  const Completed := "インポートが完了しました。"

  function ImportedLine(n: int): string { "インポート済み: " + IntToString(n) + "件" }
  function SkippedLine(n: int): string { "スキップ: " + IntToString(n) + "件" }
  function ErrorCountLine(n: nat): string { "エラー: " + NatToString(n) + "件" }
  function MoreErrorsLine(n: nat): string { "...他" + NatToString(n) + "件" }

  /** `errors.slice(0, 3)`. */
  function FirstErrors(errors: seq<string>): (r: seq<string>)
    ensures |r| == if |errors| < 3 then |errors| else 3
    ensures r == errors[..|r|]
  {
    if |errors| < 3 then errors else errors[..3]
  }

  /**
   * The lines of the summary: the completion line, the imported count, the
   * skipped count only when positive, and, when there are errors, their
   * count, the first three of them and a line counting the rest when there
   * are more than three. Without errors the message ends in a line break,
   * which leaves an empty last line.
   */
  function SummaryLines(imported: int, skipped: int, errors: Option<seq<string>>): seq<string> {
    HeadLines(imported, skipped) + ErrorLines(errors.GetOr([]))
  }

  function HeadLines(imported: int, skipped: int): seq<string> {
    [Completed, ImportedLine(imported)] + (if skipped > 0 then [SkippedLine(skipped)] else [])
  }

  function ErrorLines(errs: seq<string>): seq<string> {
    if |errs| > 0 then
      [ErrorCountLine(|errs|)] + FirstErrors(errs) + (if |errs| > 3 then [MoreErrorsLine(|errs| - 3)] else [])
    else [""]
  }

  /** Appending `line` and a break to the text of `lines` and a break gives the text of one more line and a break. */
  lemma JoinSnocLine(lines: seq<string>, line: string)
    requires |lines| >= 1
    ensures Join(lines, "\n") + "\n" + (line + "\n") == Join(lines + [line], "\n") + "\n"
  {
    JoinAppend(lines, [line], "\n");
  }

  /** The text of `[first] + rest` after `start`, as executeImport appends it: the first line with its break, then the rest joined. */
  lemma AppendJoined(start: string, first: string, rest: seq<string>)
    requires |rest| >= 1
    ensures start + (first + "\n") + Join(rest, "\n") == start + Join([first] + rest, "\n")
  {
    JoinAppend([first], rest, "\n");
  }

  /** One more line after the text of `lines`, as executeImport appends it: a break, then the line. */
  lemma AppendLine(start: string, lines: seq<string>, line: string)
    requires |lines| >= 1
    ensures start + Join(lines, "\n") + ("\n" + line) == start + Join(lines + [line], "\n")
  {
    JoinAppend(lines, [line], "\n");
  }

  /** executeImport's alert text, appended piece by piece. */
  method ImportMessage(imported: int, skipped: int, errors: Option<seq<string>>) returns (message: string)
    ensures message == Join(SummaryLines(imported, skipped, errors), "\n")
  {
    ghost var head := [Completed];
    message := Completed + "\n";
    JoinSnocLine(head, ImportedLine(imported));
    message := message + (ImportedLine(imported) + "\n");
    head := head + [ImportedLine(imported)];
    if skipped > 0 {
      JoinSnocLine(head, SkippedLine(skipped));
      message := message + (SkippedLine(skipped) + "\n");
      head := head + [SkippedLine(skipped)];
    }
    assert head == HeadLines(imported, skipped);
    ghost var start := message;
    var errs := errors.GetOr([]);
    if errors.Some? && |errors.value| > 0 {
      var shown := FirstErrors(errs);
      message := message + (ErrorCountLine(|errs|) + "\n");
      message := message + Join(shown, "\n");
      AppendJoined(start, ErrorCountLine(|errs|), shown);
      ghost var tail := [ErrorCountLine(|errs|)] + shown;
      if |errs| > 3 {
        AppendLine(start, tail, MoreErrorsLine(|errs| - 3));
        message := message + ("\n" + MoreErrorsLine(|errs| - 3));
        tail := tail + [MoreErrorsLine(|errs| - 3)];
      }
      assert tail == ErrorLines(errs);
    } else {
      assert ErrorLines(errs) == [""];
      assert message == start + Join([""], "\n");
    }
    JoinAppend(head, ErrorLines(errs), "\n");
  }

  lemma NumeralBreakFree(n: int)
    ensures '\n' !in IntToString(n)
  {
    var s := if n < 0 then NatToString(-n) else NatToString(n);
    forall i | 0 <= i < |s| ensures s[i] != '\n' {
      assert IsDigit(s[i]);
    }
    assert IntToString(n) == if n < 0 then "-" + s else s;
  }

  /**
   * When no error message holds a line break, splitting the alert into
   * lines gives the summary lines: at most three error lines are shown.
   */
  lemma ImportMessageLines(imported: int, skipped: int, errors: Option<seq<string>>, message: string)
    requires forall i :: 0 <= i < |errors.GetOr([])| ==> '\n' !in errors.GetOr([])[i]
    requires message == Join(SummaryLines(imported, skipped, errors), "\n")
    ensures Split(message, '\n') == SummaryLines(imported, skipped, errors)
    ensures |errors.GetOr([])| > 3 ==> |Split(message, '\n')| == (if skipped > 0 then 3 else 2) + 5
  {
    var errs := errors.GetOr([]);
    HeadBreakFree(imported, skipped);
    ErrorsBreakFree(errs);
    var lines := SummaryLines(imported, skipped, errors);
    assert forall i :: 0 <= i < |lines| ==> '\n' !in lines[i] by {
      var head, tail := HeadLines(imported, skipped), ErrorLines(errs);
      forall i | 0 <= i < |lines| ensures '\n' !in lines[i] {
        if i < |head| { assert lines[i] == head[i]; } else { assert lines[i] == tail[i - |head|]; }
      }
    }
    SplitJoin(lines, '\n');
  }

  lemma LabelledBreakFree(prefix: string, n: int, suffix: string)
    requires '\n' !in prefix && '\n' !in suffix
    ensures '\n' !in prefix + IntToString(n) + suffix
  {
    NumeralBreakFree(n);
  }

  lemma HeadBreakFree(imported: int, skipped: int)
    ensures forall i :: 0 <= i < |HeadLines(imported, skipped)| ==> '\n' !in HeadLines(imported, skipped)[i]
  {
    LabelledBreakFree("インポート済み: ", imported, "件");
    LabelledBreakFree("スキップ: ", skipped, "件");
  }

  lemma ErrorsBreakFree(errs: seq<string>)
    requires forall i :: 0 <= i < |errs| ==> '\n' !in errs[i]
    ensures forall i :: 0 <= i < |ErrorLines(errs)| ==> '\n' !in ErrorLines(errs)[i]
  {
    if |errs| > 0 {
      LabelledBreakFree("エラー: ", |errs|, "件");
      LabelledBreakFree("...他", |errs| - 3, "件");
      assert IntToString(|errs|) == NatToString(|errs|);
      assert |errs| > 3 ==> IntToString(|errs| - 3) == NatToString(|errs| - 3);
    }
  }

  // ---------------------------------------------------------------------
  // The import file
  // ---------------------------------------------------------------------

  /** A parsed JSON document. */
  datatype Json =
    | JNull
    | JBool(b: bool)
    | JNumber(n: real)
    | JString(s: string)
    | JArray(items: seq<Json>)
    | JObject(fields: map<string, Json>)

  /** JavaScript truthiness of a parsed JSON value. */
  predicate JsonTruthy(j: Json) {
    match j
    case JNull => false
    case JBool(b) => b
    case JNumber(n) => n != 0.0
    case JString(s) => s != ""
    case JArray(_) => true
    case JObject(_) => true
  }

  /**
   * previewImportFile's test `!importData || !importData.cards`, negated:
   * the file is accepted when it is an object whose `cards` member is
   * truthy. Every object with a `cards` array is accepted, the empty array
   * included; nothing without a `cards` member is.
   */
  function ImportFileAccepted(data: Json): (ok: bool)
    ensures ok ==> data.JObject? && "cards" in data.fields
    ensures data.JObject? && "cards" in data.fields && data.fields["cards"].JArray? ==> ok
  {
    JsonTruthy(data) && data.JObject? && "cards" in data.fields && JsonTruthy(data.fields["cards"])
  }
}
