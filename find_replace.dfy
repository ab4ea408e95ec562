/** The two data-access routines of the plugin: the occurrence scan behind
    the preview and the bulk substitution behind the execute. The database
    is an array of rows of the posts table joined with its post-meta rows. */
module FindReplace {
  import opened PhpStrings

  /** The meta key under which Elementor stores a page's layout. */
  const ElementorDataKey: string := "_elementor_data"
  /** The post status the routines select. */
  const PublishStatus: string := "publish"

  /** The two modified-time columns a rewrite sets: post_modified and
      post_modified_gmt, read from the clock by the caller. */
  datatype Stamp = Stamp(local: string, gmt: string)

  /** One row of the posts x postmeta join: the post's id, title, status and
      modified time, and one meta row's key and value (the layout payload). */
  datatype Row = Row(id: nat, title: string, status: string, metaKey: string,
                     payload: string, modified: Stamp)

  /** The WHERE clause both routines use: Elementor data of a published
      post, with a non-empty value. */
  predicate Selected(row: Row) {
    row.metaKey == ElementorDataKey && row.status == PublishStatus && row.payload != ""
  }

  /** One entry of the preview's result list. */
  datatype Match = Match(postId: nat, postTitle: string, occurrences: nat)

  // ---------------------------------------------------------------- scan

  /** The occurrence count the scan computes for one payload: substr_count
      on the payload, or on lower-cased copies of payload and find text.
      Either way it is the number of leftmost non-overlapping matches under
      the flag's notion of equality. */
  function Occurrences(payload: string, find: string, caseSensitive: bool): (n: nat)
    requires find != []
    ensures n == CountMatches(payload, find, !caseSensitive)
    ensures n * |find| <= |payload|
  {
    CountBound(payload, find, !caseSensitive);
    if caseSensitive then SubstrCount(payload, find)
    else
      LowerCount(payload, find);
      SubstrCount(ToLower(payload), ToLower(find))
  }

  /** The find text occurs in the payload at position j, exactly when the
      scan is case-sensitive and ASCII-folded otherwise. */
  predicate FoundAt(payload: string, find: string, caseSensitive: bool, j: nat) {
    OccursAt(payload, find, !caseSensitive, j)
  }

  /** A row the preview lists: selected, with at least one occurrence. */
  predicate IsHit(row: Row, find: string, caseSensitive: bool)
    requires find != []
  {
    Selected(row) && Occurrences(row.payload, find, caseSensitive) > 0
  }

  function MatchOf(row: Row, find: string, caseSensitive: bool): Match
    requires find != []
  {
    Match(row.id, row.title, Occurrences(row.payload, find, caseSensitive))
  }

  /** The result list of the scan over `rows`, built as the source's loop
      builds it: one entry appended per hit, in row order. */
  function Matches(rows: seq<Row>, find: string, caseSensitive: bool): seq<Match>
    requires find != []
  {
    if rows == [] then []
    else
      var last := rows[|rows| - 1];
      Matches(rows[..|rows| - 1], find, caseSensitive)
        + (if IsHit(last, find, caseSensitive) then [MatchOf(last, find, caseSensitive)] else [])
  }

  /** The positions, ascending, of the elements of `xs` that satisfy `p`. */
  function Positions<T>(xs: seq<T>, p: T -> bool): (idx: seq<nat>)
    ensures forall k | 0 <= k < |idx| :: idx[k] < |xs| && p(xs[idx[k]])
    ensures forall k, l | 0 <= k < l < |idx| :: idx[k] < idx[l]
    ensures forall i | 0 <= i < |xs| && p(xs[i]) :: i in idx
  {
    if xs == [] then []
    else
      var n := |xs| - 1;
      var prefix := xs[..n];
      assert forall i | 0 <= i < n :: prefix[i] == xs[i];
      Positions(prefix, p) + (if p(xs[n]) then [n] else [])
  }

  /** The positions of the hits among `rows`, ascending: an independent
      description of which rows the preview reports. */
  function HitIndices(rows: seq<Row>, find: string, caseSensitive: bool): seq<nat>
    requires find != []
  {
    Positions(rows, (row: Row) => IsHit(row, find, caseSensitive))
  }

  /** The preview lists exactly the hits, in row order, each with its row's
      id, title and occurrence count. */
  lemma {:induction false} MatchesAreHitsInOrder(rows: seq<Row>, find: string, caseSensitive: bool)
    requires find != []
    ensures |Matches(rows, find, caseSensitive)| == |HitIndices(rows, find, caseSensitive)|
    ensures forall k | 0 <= k < |Matches(rows, find, caseSensitive)| ::
      Matches(rows, find, caseSensitive)[k]
        == MatchOf(rows[HitIndices(rows, find, caseSensitive)[k]], find, caseSensitive)
  {
    if rows != [] {
      var n := |rows| - 1;
      var prefix := rows[..n];
      MatchesAreHitsInOrder(prefix, find, caseSensitive);
      assert forall i | 0 <= i < n :: prefix[i] == rows[i];
    }
  }

  /** A row is a hit exactly when it is selected and the find text occurs
      in its payload. */
  lemma IsHitIffOccurs(row: Row, find: string, caseSensitive: bool)
    requires find != []
    ensures IsHit(row, find, caseSensitive)
        <==> Selected(row) && exists j: nat :: FoundAt(row.payload, find, caseSensitive, j)
  {
    CountPositiveIffOccurs(row.payload, find, !caseSensitive);
    if Occurrences(row.payload, find, caseSensitive) > 0 {
      var j: nat :| OccursAt(row.payload, find, !caseSensitive, j);
      assert FoundAt(row.payload, find, caseSensitive, j);
    }
  }

  /** The preview's list is empty exactly when no selected row contains the
      find text. */
  lemma NoMatchesIffNoHit(rows: seq<Row>, find: string, caseSensitive: bool)
    requires find != []
    ensures Matches(rows, find, caseSensitive) == []
        <==> forall i | 0 <= i < |rows| :: !IsHit(rows[i], find, caseSensitive)
    ensures Matches(rows, find, caseSensitive) == []
        <==> forall i: nat, j: nat | i < |rows| && Selected(rows[i]) ::
               !FoundAt(rows[i].payload, find, caseSensitive, j)
  {
    forall i | 0 <= i < |rows| {
      IsHitIffOccurs(rows[i], find, caseSensitive);
    }
    MatchesAreHitsInOrder(rows, find, caseSensitive);
    var idx := HitIndices(rows, find, caseSensitive);
    if idx != [] {
      assert IsHit(rows[idx[0]], find, caseSensitive);
    }
  }

  /** find_in_elementor_pages. It reads the table and changes nothing (it
      has no modifies clause). */
  method FindInPages(posts: array<Row>, find: string, caseSensitive: bool)
    returns (results: seq<Match>)
    requires find != []
    ensures results == Matches(posts[..], find, caseSensitive)
    ensures |results| == |HitIndices(posts[..], find, caseSensitive)|
    ensures forall k | 0 <= k < |results| ::
      results[k] == MatchOf(posts[HitIndices(posts[..], find, caseSensitive)[k]], find, caseSensitive)
  {
    results := [];
    var i := 0;
    while i < posts.Length
      invariant 0 <= i <= posts.Length
      invariant results == Matches(posts[..i], find, caseSensitive)
    {
      var post := posts[i];
      if Selected(post) {
        var occurrences;
        if caseSensitive {
          occurrences := SubstrCount(post.payload, find);
        } else {
          occurrences := SubstrCount(ToLower(post.payload), ToLower(find));
        }
        if occurrences > 0 {
          results := results + [Match(post.id, post.title, occurrences)];
        }
      }
      assert posts[..i + 1][..i] == posts[..i];
      i := i + 1;
    }
    assert posts[..i] == posts[..];
    MatchesAreHitsInOrder(posts[..], find, caseSensitive);
  }

  // ---------------------------------------------------------------- rewrite

  /** The payload after substitution: str_replace or str_ireplace. */
  function NewPayload(payload: string, find: string, replace: string, caseSensitive: bool): string {
    if caseSensitive then StrReplace(find, replace, payload) else StrIReplace(find, replace, payload)
  }

  /** The rows the bulk substitution writes: selected, and changed by it. */
  predicate Rewrites(row: Row, find: string, replace: string, caseSensitive: bool) {
    Selected(row) && NewPayload(row.payload, find, replace, caseSensitive) != row.payload
  }

  /** A row after the bulk substitution: the rows it writes get the new
      payload and the caller's modified stamp. */
  function Rewrite(row: Row, find: string, replace: string, caseSensitive: bool, now: Stamp): Row {
    if Rewrites(row, find, replace, caseSensitive) then
      row.(payload := NewPayload(row.payload, find, replace, caseSensitive), modified := now)
    else row
  }

  /** A row is changed exactly when it is selected and str_replace /
      str_ireplace changes its payload: no-op writes are skipped, and the
      id, title, status and meta key are never touched. */
  lemma RewriteEffect(row: Row, find: string, replace: string, caseSensitive: bool, now: Stamp)
    ensures Rewrite(row, find, replace, caseSensitive, now) != row
        <==> Rewrites(row, find, replace, caseSensitive)
    ensures var r := Rewrite(row, find, replace, caseSensitive, now);
      r.id == row.id && r.title == row.title && r.status == row.status && r.metaKey == row.metaKey
  {
  }

  /** The number of rows among `rows` that the substitution writes. */
  function RewriteCount(rows: seq<Row>, find: string, replace: string, caseSensitive: bool): nat {
    if rows == [] then 0
    else
      RewriteCount(rows[..|rows| - 1], find, replace, caseSensitive)
        + (if Rewrites(rows[|rows| - 1], find, replace, caseSensitive) then 1 else 0)
  }

  /** The number of selected rows among `rows`. */
  function SelectedCount(rows: seq<Row>): nat {
    if rows == [] then 0
    else SelectedCount(rows[..|rows| - 1]) + (if Selected(rows[|rows| - 1]) then 1 else 0)
  }

  lemma RewriteCountStep(rows: seq<Row>, i: nat, find: string, replace: string, caseSensitive: bool)
    requires i < |rows|
    ensures RewriteCount(rows[..i + 1], find, replace, caseSensitive)
         == RewriteCount(rows[..i], find, replace, caseSensitive)
            + if Rewrites(rows[i], find, replace, caseSensitive) then 1 else 0
  {
    assert rows[..i + 1][..i] == rows[..i];
  }

  /** replace_in_elementor_pages. Every row becomes its Rewrite (so a row is
      written, with the new payload and stamp, exactly when it is selected
      and its payload changes; every other row stays as it was), and the
      result is the number of rows written. */
  method ReplaceInPages(posts: array<Row>, find: string, replace: string, caseSensitive: bool, now: Stamp)
    returns (updatedCount: nat)
    modifies posts
    ensures forall i | 0 <= i < posts.Length :: posts[i] == Rewrite(old(posts[i]), find, replace, caseSensitive, now)
    ensures updatedCount == RewriteCount(old(posts[..]), find, replace, caseSensitive)
  {
    ghost var rows := posts[..];
    updatedCount := 0;
    var i := 0;
    while i < posts.Length
      invariant 0 <= i <= posts.Length
      invariant forall j {:trigger rows[j]} | 0 <= j < i :: posts[j] == Rewrite(rows[j], find, replace, caseSensitive, now)
      invariant forall j {:trigger rows[j]} | i <= j < posts.Length :: posts[j] == rows[j]
      invariant updatedCount == RewriteCount(rows[..i], find, replace, caseSensitive)
    {
      var post := posts[i];
      assert post == rows[i];
      RewriteCountStep(rows, i, find, replace, caseSensitive);
      label before:
      if Selected(post) {
        var originalData := post.payload;
        var newData;
        if caseSensitive {
          newData := StrReplace(find, replace, originalData);
        } else {
          newData := StrIReplace(find, replace, originalData);
        }
        if newData != originalData {
          posts[i] := post.(payload := newData, modified := now);
          updatedCount := updatedCount + 1;
        }
      }
      assert posts[i] == Rewrite(rows[i], find, replace, caseSensitive, now);
      assert forall j | 0 <= j < posts.Length && j != i :: posts[j] == old@before(posts[j]);
      i := i + 1;
    }
    assert rows[..i] == rows;
  }

  // ---------------------------------------------------------------- relating the two

  /** A row the substitution writes is one the preview lists. */
  lemma RewrittenRowIsHit(row: Row, find: string, replace: string, caseSensitive: bool)
    requires find != []
    requires Rewrites(row, find, replace, caseSensitive)
    ensures IsHit(row, find, caseSensitive)
  {
    if Occurrences(row.payload, find, caseSensitive) == 0 {
      NoMatchUnchanged(find, replace, row.payload, !caseSensitive);
    }
  }

  /** A row in which the find text occurs nowhere is never written. */
  lemma UnoccurringRowNotRewritten(row: Row, find: string, replace: string, caseSensitive: bool)
    requires find != []
    requires forall i: nat :: !FoundAt(row.payload, find, caseSensitive, i)
    ensures !Rewrites(row, find, replace, caseSensitive)
  {
    var ignoreCase := !caseSensitive;
    forall i: nat ensures !OccursAt(row.payload, find, ignoreCase, i) {
      assert !FoundAt(row.payload, find, caseSensitive, i);
    }
    CountPositiveIffOccurs(row.payload, find, ignoreCase);
    NoMatchUnchanged(find, replace, row.payload, !caseSensitive);
  }

  /** Case-sensitively and with a replacement different from the find text,
      the substitution writes exactly the rows the preview lists. */
  lemma RewritesIffHit(row: Row, find: string, replace: string)
    requires find != [] && replace != find
    ensures Rewrites(row, find, replace, true) <==> IsHit(row, find, true)
  {
    StrReplaceChanges(find, replace, row.payload);
  }

  /** The substitution writes only rows the preview lists. */
  lemma RewritesOnlyPreviewedRows(rows: seq<Row>, find: string, replace: string, caseSensitive: bool)
    requires find != []
    ensures forall i | 0 <= i < |rows| && Rewrites(rows[i], find, replace, caseSensitive) ::
      MatchOf(rows[i], find, caseSensitive) in Matches(rows, find, caseSensitive)
  {
    MatchesAreHitsInOrder(rows, find, caseSensitive);
    var idx := HitIndices(rows, find, caseSensitive);
    var ms := Matches(rows, find, caseSensitive);
    forall i | 0 <= i < |rows| && Rewrites(rows[i], find, replace, caseSensitive)
      ensures MatchOf(rows[i], find, caseSensitive) in ms
    {
      RewrittenRowIsHit(rows[i], find, replace, caseSensitive);
      var k :| 0 <= k < |idx| && idx[k] == i;
      assert ms[k] == MatchOf(rows[i], find, caseSensitive);
    }
  }

  /** The returned count is at most the number of selected rows. */
  lemma {:induction false} RewriteCountAtMostSelected(rows: seq<Row>, find: string, replace: string, caseSensitive: bool)
    ensures RewriteCount(rows, find, replace, caseSensitive) <= SelectedCount(rows)
  {
    if rows != [] {
      RewriteCountAtMostSelected(rows[..|rows| - 1], find, replace, caseSensitive);
    }
  }

  /** The returned count is at most the number of pages the preview lists. */
  lemma {:induction false} RewriteCountAtMostMatches(rows: seq<Row>, find: string, replace: string, caseSensitive: bool)
    requires find != []
    ensures RewriteCount(rows, find, replace, caseSensitive) <= |Matches(rows, find, caseSensitive)|
  {
    if rows != [] {
      var last := rows[|rows| - 1];
      RewriteCountAtMostMatches(rows[..|rows| - 1], find, replace, caseSensitive);
      if Rewrites(last, find, replace, caseSensitive) {
        RewrittenRowIsHit(last, find, replace, caseSensitive);
      }
    }
  }

  /** Case-sensitively, with a replacement different from the find text,
      the returned count is exactly the number of pages the preview lists. */
  lemma {:induction false} RewriteCountEqualsMatches(rows: seq<Row>, find: string, replace: string)
    requires find != [] && replace != find
    ensures RewriteCount(rows, find, replace, true) == |Matches(rows, find, true)|
  {
    if rows != [] {
      RewriteCountEqualsMatches(rows[..|rows| - 1], find, replace);
      RewritesIffHit(rows[|rows| - 1], find, replace);
    }
  }

  /** With an empty find text str_replace returns its subject, so nothing
      is written. */
  lemma {:induction false} EmptyFindRewritesNothing(rows: seq<Row>, replace: string, caseSensitive: bool)
    ensures RewriteCount(rows, "", replace, caseSensitive) == 0
  {
    if rows != [] {
      EmptyFindRewritesNothing(rows[..|rows| - 1], replace, caseSensitive);
    }
  }
}
