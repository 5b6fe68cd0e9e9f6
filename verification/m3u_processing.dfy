/**
 * src/m3u_processing.rs: the pure transforms applied to a playlist
 * before it is written: cleaning a text for use as a file name, sorting
 * groups by title, and renaming groups and items by a list of rules.
 * The rules' regular expressions are a parameter `replaceAll`
 * (`Regex::replace_all`, taking the pattern, the text and the
 * replacement).
 */
module M3uProcessing {
  import opened Wrappers
  import opened RustChar
  import opened Playlist

  // ---------------------------------------------------------------------
  // sanitize_for_filename
  // ---------------------------------------------------------------------

  predicate KeptInName(c: char) {
    IsAlphanumeric(c) || IsWhitespace(c)
  }

  /**
   * `sanitize_for_filename`: drop every character that is neither
   * alphanumeric nor whitespace, and with `underscoreWhitespace` turn the
   * kept whitespace into '_'.
   */
  function SanitizeForFilename(text: string, underscoreWhitespace: bool): (r: string)
    ensures |r| <= |text|
    ensures forall i :: 0 <= i < |r| ==> KeptInName(r[i]) || (underscoreWhitespace && r[i] == '_')
    ensures underscoreWhitespace ==> forall i :: 0 <= i < |r| ==> !IsWhitespace(r[i])
    decreases |text|
  {
    if |text| == 0 then ""
    else if !KeptInName(text[0]) then SanitizeForFilename(text[1..], underscoreWhitespace)
    else [if underscoreWhitespace && IsWhitespace(text[0]) then '_' else text[0]] + SanitizeForFilename(text[1..], underscoreWhitespace)
  }

  /** a is b with some characters left out, the rest in order. */
  predicate IsSubsequence(a: string, b: string)
    decreases |b|
  {
    if |a| == 0 then true
    else if |b| == 0 then false
    else if a[0] == b[0] then IsSubsequence(a[1..], b[1..])
    else IsSubsequence(a, b[1..])
  }

  /**
   * Without underscores the result is a subsequence of the text holding
   * every kept character as often as the text does: exactly the kept
   * characters, in their order.
   */
  lemma {:induction false} SanitizeKeepsOrder(text: string)
    ensures IsSubsequence(SanitizeForFilename(text, false), text)
    ensures forall c :: KeptInName(c) ==> multiset(SanitizeForFilename(text, false))[c] == multiset(text)[c]
    ensures forall c :: !KeptInName(c) ==> multiset(SanitizeForFilename(text, false))[c] == 0
    decreases |text|
  {
    if |text| > 0 {
      SanitizeKeepsOrder(text[1..]);
      assert text == [text[0]] + text[1..];
      assert multiset(text) == multiset{text[0]} + multiset(text[1..]);
      var rest := SanitizeForFilename(text[1..], false);
      if KeptInName(text[0]) {
        var r := SanitizeForFilename(text, false);
        assert r == [text[0]] + rest;
        assert r[1..] == rest;
        assert multiset(r) == multiset{text[0]} + multiset(rest);
      } else if |rest| > 0 {
        assert KeptInName(rest[0]);
      }
    }
  }

  /** With underscores the result is the plain one with each whitespace replaced by '_'. */
  lemma {:induction false} SanitizeUnderscores(text: string)
    ensures var plain := SanitizeForFilename(text, false);
      var r := SanitizeForFilename(text, true);
      && |r| == |plain|
      && forall i :: 0 <= i < |r| ==> r[i] == if IsWhitespace(plain[i]) then '_' else plain[i]
    decreases |text|
  {
    if |text| > 0 {
      SanitizeUnderscores(text[1..]);
    }
  }

  /** Without underscores sanitising twice is sanitising once. */
  lemma {:induction false} SanitizeIdempotent(text: string)
    ensures SanitizeForFilename(SanitizeForFilename(text, false), false) == SanitizeForFilename(text, false)
    decreases |text|
  {
    if |text| > 0 {
      SanitizeIdempotent(text[1..]);
      var rest := SanitizeForFilename(text[1..], false);
      if KeptInName(text[0]) {
        var r := [text[0]] + rest;
        assert r[0] == text[0] && r[1..] == rest;
      }
    }
  }

  // ---------------------------------------------------------------------
  // sort_playlist
  // ---------------------------------------------------------------------

  /** `std::cmp::Ordering` */
  datatype Ordering = Less | Equal | Greater {
    /** `Ordering::reverse` */
    function Reverse(): Ordering {
      match this
      case Less => Greater
      case Equal => Equal
      case Greater => Less
    }
  }

  /** `SortOrder` */
  datatype SortOrder = Asc | Desc

  /**
   * The order of `String::partial_cmp`: lexicographic by character
   * (which for UTF-8 text agrees with the byte order).
   */
  function Compare(a: string, b: string): Ordering
    decreases |a|
  {
    if |a| == 0 && |b| == 0 then Equal
    else if |a| == 0 then Less
    else if |b| == 0 then Greater
    else if a[0] < b[0] then Less
    else if a[0] > b[0] then Greater
    else Compare(a[1..], b[1..])
  }

  /** Comparing the other way round reverses the ordering; only equal strings compare equal. */
  lemma {:induction false} CompareSymmetric(a: string, b: string)
    ensures Compare(b, a) == Compare(a, b).Reverse()
    ensures Compare(a, b) == Equal <==> a == b
    decreases |a|
  {
    if |a| > 0 && |b| > 0 && a[0] == b[0] {
      CompareSymmetric(a[1..], b[1..]);
      assert a == [a[0]] + a[1..] && b == [b[0]] + b[1..];
    }
  }

  lemma {:induction false} CompareTransitive(a: string, b: string, c: string)
    requires Compare(a, b) != Greater && Compare(b, c) != Greater
    ensures Compare(a, c) != Greater
    decreases |a|
  {
    if |a| > 0 && |b| > 0 && |c| > 0 && a[0] == b[0] && b[0] == c[0] {
      CompareTransitive(a[1..], b[1..], c[1..]);
    }
  }

  /** The comparator handed to `sort_by`. */
  function CompareGroups(order: SortOrder, a: PlaylistGroup, b: PlaylistGroup): Ordering {
    match order
    case Asc => Compare(a.title, b.title)
    case Desc => Compare(a.title, b.title).Reverse()
  }

  /** a may come before b: ascending titles for `Asc`, descending for `Desc`. */
  predicate InOrder(order: SortOrder, a: PlaylistGroup, b: PlaylistGroup) {
    match order
    case Asc => Compare(a.title, b.title) != Greater
    case Desc => Compare(b.title, a.title) != Greater
  }

  predicate SortedBy(order: SortOrder, groups: seq<PlaylistGroup>) {
    forall i, j :: 0 <= i < j < |groups| ==> InOrder(order, groups[i], groups[j])
  }

  lemma InOrderTotal(order: SortOrder, a: PlaylistGroup, b: PlaylistGroup)
    ensures CompareGroups(order, a, b) != Less ==> InOrder(order, b, a)
    ensures CompareGroups(order, a, b) != Greater <==> InOrder(order, a, b)
  {
    CompareSymmetric(a.title, b.title);
  }

  lemma InOrderTransitive(order: SortOrder, a: PlaylistGroup, b: PlaylistGroup, c: PlaylistGroup)
    requires InOrder(order, a, b) && InOrder(order, b, c)
    ensures InOrder(order, a, c)
  {
    if order == Asc {
      CompareTransitive(a.title, b.title, c.title);
    } else {
      CompareTransitive(c.title, b.title, a.title);
    }
  }

  /** Put g after every group that does not sort after it: the stable insertion step. */
  function InsertSorted(order: SortOrder, g: PlaylistGroup, sorted: seq<PlaylistGroup>): (r: seq<PlaylistGroup>)
    ensures multiset(r) == multiset(sorted) + multiset{g}
    ensures |r| == |sorted| + 1
    decreases |sorted|
  {
    if |sorted| == 0 then [g]
    else if CompareGroups(order, g, sorted[0]) == Less then [g] + sorted
    else
      assert sorted == [sorted[0]] + sorted[1..];
      [sorted[0]] + InsertSorted(order, g, sorted[1..])
  }

  lemma {:induction false} InsertSortedKeepsOrder(order: SortOrder, g: PlaylistGroup, sorted: seq<PlaylistGroup>)
    requires SortedBy(order, sorted)
    ensures SortedBy(order, InsertSorted(order, g, sorted))
    decreases |sorted|
  {
    if |sorted| == 0 {
    } else if CompareGroups(order, g, sorted[0]) == Less {
      InOrderTotal(order, g, sorted[0]);
      SortedCons(order, g, sorted);
    } else {
      InOrderTotal(order, g, sorted[0]);
      InsertSortedKeepsOrder(order, g, sorted[1..]);
      SortedAfterHead(order, g, sorted, InsertSorted(order, g, sorted[1..]));
    }
  }

  /** A group that may precede the first of a sorted list may precede all of it. */
  lemma SortedCons(order: SortOrder, g: PlaylistGroup, sorted: seq<PlaylistGroup>)
    requires SortedBy(order, sorted) && |sorted| > 0 && InOrder(order, g, sorted[0])
    ensures SortedBy(order, [g] + sorted)
  {
    var r := [g] + sorted;
    forall i, j | 0 <= i < j < |r|
      ensures InOrder(order, r[i], r[j])
    {
      if i == 0 && j > 1 {
        InOrderTransitive(order, g, sorted[0], sorted[j - 1]);
      }
    }
  }

  /** The head of a sorted list may precede a sorted rearrangement of its tail with g added after it. */
  lemma SortedAfterHead(order: SortOrder, g: PlaylistGroup, sorted: seq<PlaylistGroup>, tail: seq<PlaylistGroup>)
    requires SortedBy(order, sorted) && |sorted| > 0 && InOrder(order, sorted[0], g)
    requires SortedBy(order, tail) && multiset(tail) == multiset(sorted[1..]) + multiset{g}
    ensures SortedBy(order, [sorted[0]] + tail)
  {
    var r := [sorted[0]] + tail;
    forall i, j | 0 <= i < j < |r|
      ensures InOrder(order, r[i], r[j])
    {
      if i == 0 {
        assert r[j] in multiset(tail);
        assert r[j] in multiset(sorted[1..]) + multiset{g};
        if r[j] != g {
          var k :| 1 <= k < |sorted| && sorted[k] == r[j];
        }
      }
    }
  }

  /** `sort_by`: an insertion sort that, like the library's, keeps groups with equal titles in their order. */
  function SortBy(order: SortOrder, groups: seq<PlaylistGroup>): (r: seq<PlaylistGroup>)
    ensures multiset(r) == multiset(groups)
    ensures SortedBy(order, r)
    decreases |groups|
  {
    if |groups| == 0 then []
    else
      var init := groups[..|groups| - 1];
      assert groups == init + [groups[|groups| - 1]];
      InsertSortedKeepsOrder(order, groups[|groups| - 1], SortBy(order, init));
      InsertSorted(order, groups[|groups| - 1], SortBy(order, init))
  }

  /**
   * `sort_playlist`: without a configured sort the groups stay as they
   * are; otherwise they are permuted into title order.
   */
  function SortPlaylist(sort: Option<SortOrder>, groups: seq<PlaylistGroup>): (r: seq<PlaylistGroup>)
    ensures sort.None? ==> r == groups
    ensures multiset(r) == multiset(groups)
    ensures sort.Some? ==> SortedBy(sort.value, r)
  {
    match sort
    case None => groups
    case Some(order) => SortBy(order, groups)
  }

  /** Descending order is ascending order read backwards. */
  lemma DescendingIsReversedAscending(groups: seq<PlaylistGroup>)
    ensures SortedBy(Desc, groups) <==> SortedBy(Asc, Reversed(groups))
  {
    var rev := Reversed(groups);
    if SortedBy(Desc, groups) {
      forall i, j | 0 <= i < j < |rev|
        ensures InOrder(Asc, rev[i], rev[j])
      {
        assert rev[i] == groups[|groups| - 1 - i] && rev[j] == groups[|groups| - 1 - j];
      }
    }
    if SortedBy(Asc, rev) {
      forall i, j | 0 <= i < j < |groups|
        ensures InOrder(Desc, groups[i], groups[j])
      {
        assert rev[|groups| - 1 - j] == groups[j] && rev[|groups| - 1 - i] == groups[i];
      }
    }
  }

  function Reversed(s: seq<PlaylistGroup>): (r: seq<PlaylistGroup>)
    ensures |r| == |s| && forall i :: 0 <= i < |s| ==> r[i] == s[|s| - 1 - i]
    decreases |s|
  {
    if |s| == 0 then [] else Reversed(s[1..]) + [s[0]]
  }

  // ---------------------------------------------------------------------
  // Renaming
  // ---------------------------------------------------------------------

  /** `ItemField` */
  datatype ItemField = Group | Name | Title | Url

  /** `ConfigRename`: the field, the regular expression and the replacement. */
  datatype ConfigRename = ConfigRename(field: ItemField, pattern: string, newName: string)

  /** The group title after every rule on the group field, in order. */
  function RenameTitle(title: string, rules: seq<ConfigRename>, replaceAll: (string, string, string) -> string): string
    decreases |rules|
  {
    if |rules| == 0 then title
    else
      var r := rules[0];
      var title := if r.field == ItemField.Group then replaceAll(r.pattern, title, r.newName) else title;
      RenameTitle(title, rules[1..], replaceAll)
  }

  /**
   * `rename_playlist`: every group, in order, with only its title
   * rewritten by the group rules.
   */
  function RenamePlaylist(groups: seq<PlaylistGroup>, rules: seq<ConfigRename>,
                          replaceAll: (string, string, string) -> string): (r: seq<PlaylistGroup>)
    ensures |r| == |groups|
    ensures forall i :: 0 <= i < |r| ==> r[i] == groups[i].(title := r[i].title)
    ensures forall i :: 0 <= i < |r| ==> r[i].title == RenameTitle(groups[i].title, rules, replaceAll)
  {
    seq(|groups|, i requires 0 <= i < |groups| => groups[i].(title := RenameTitle(groups[i].title, rules, replaceAll)))
  }

  /** Rules on other fields leave group titles alone. */
  lemma {:induction false} RenameTitleIgnoresItemRules(title: string, rules: seq<ConfigRename>,
                                                       replaceAll: (string, string, string) -> string)
    requires forall i :: 0 <= i < |rules| ==> rules[i].field != ItemField.Group
    ensures RenameTitle(title, rules, replaceAll) == title
    decreases |rules|
  {
    if |rules| > 0 {
      RenameTitleIgnoresItemRules(title, rules[1..], replaceAll);
    }
  }

  lemma RenameWithoutGroupRules(groups: seq<PlaylistGroup>, rules: seq<ConfigRename>,
                                replaceAll: (string, string, string) -> string)
    requires forall i :: 0 <= i < |rules| ==> rules[i].field != ItemField.Group
    ensures RenamePlaylist(groups, rules, replaceAll) == groups
  {
    var r := RenamePlaylist(groups, rules, replaceAll);
    forall i | 0 <= i < |groups|
      ensures r[i] == groups[i]
    {
      RenameTitleIgnoresItemRules(groups[i].title, rules, replaceAll);
    }
  }

  /** `get_field_value` */
  function GetFieldValue(item: PlaylistItem, field: ItemField): string {
    match field
    case Group => item.header.group
    case Name => item.header.name
    case Title => item.header.title
    case Url => item.header.url
  }

  /** `set_field_value`: the url is never rewritten. */
  function SetFieldValue(item: PlaylistItem, field: ItemField, value: string): PlaylistItem {
    match field
    case Group => item.(header := item.header.(group := value))
    case Name => item.(header := item.header.(name := value))
    case Title => item.(header := item.header.(title := value))
    case Url => item
  }

  /** The header name of a renamable field. */
  function HeaderFieldOf(field: ItemField): HeaderField {
    match field
    case Group => HeaderField.Group
    case Name => HeaderField.Name
    case Title => HeaderField.Title
    case Url => HeaderField.Url
  }

  /**
   * The rename fields are header fields: reading one is reading the
   * header field, and setting one other than the url is writing it;
   * setting the url changes nothing, and after setting another field it
   * reads the value set.
   */
  lemma FieldValueIsHeaderField(item: PlaylistItem, field: ItemField, value: string)
    ensures Some(GetFieldValue(item, field)) == Read(item.header, HeaderFieldOf(field))
    ensures field == ItemField.Url ==> SetFieldValue(item, field, value) == item
    ensures field != ItemField.Url ==> SetFieldValue(item, field, value).header == Write(item.header, HeaderFieldOf(field), value)
    ensures field != ItemField.Url ==> GetFieldValue(SetFieldValue(item, field, value), field) == value
  {
  }

  /** One rule: rewrite the field's value. */
  function ApplyRule(item: PlaylistItem, rule: ConfigRename, replaceAll: (string, string, string) -> string): PlaylistItem {
    SetFieldValue(item, rule.field, replaceAll(rule.pattern, GetFieldValue(item, rule.field), rule.newName))
  }

  function ApplyRules(item: PlaylistItem, rules: seq<ConfigRename>, replaceAll: (string, string, string) -> string): PlaylistItem
    decreases |rules|
  {
    if |rules| == 0 then item else ApplyRules(ApplyRule(item, rules[0], replaceAll), rules[1..], replaceAll)
  }

  /** `exec_rename`: nothing without rules, else the item with every rule applied in order. */
  function ExecRename(item: PlaylistItem, rules: seq<ConfigRename>, replaceAll: (string, string, string) -> string): (r: Option<PlaylistItem>)
    ensures r.None? <==> |rules| == 0
  {
    if |rules| > 0 then Some(ApplyRules(item, rules, replaceAll)) else None
  }

  /** The rules act left to right: a list of rules is its first part followed by the rest. */
  lemma {:induction false} ApplyRulesAppend(item: PlaylistItem, a: seq<ConfigRename>, b: seq<ConfigRename>,
                                            replaceAll: (string, string, string) -> string)
    ensures ApplyRules(item, a + b, replaceAll) == ApplyRules(ApplyRules(item, a, replaceAll), b, replaceAll)
    decreases |a|
  {
    if |a| == 0 {
      assert a + b == b;
    } else {
      assert (a + b)[0] == a[0] && (a + b)[1..] == a[1..] + b;
      ApplyRulesAppend(ApplyRule(item, a[0], replaceAll), a[1..], b, replaceAll);
    }
  }

  /** Renaming touches the group, name and title only: the url and every other header field stay. */
  lemma {:induction false} ApplyRulesFrame(item: PlaylistItem, rules: seq<ConfigRename>,
                                           replaceAll: (string, string, string) -> string)
    ensures var h := ApplyRules(item, rules, replaceAll).header;
      h == item.header.(group := h.group, name := h.name, title := h.title)
    decreases |rules|
  {
    if |rules| > 0 {
      ApplyRulesFrame(ApplyRule(item, rules[0], replaceAll), rules[1..], replaceAll);
    }
  }

  /** With a single rule the item's field holds the replacement of its old value. */
  lemma ExecOneRule(item: PlaylistItem, rule: ConfigRename, replaceAll: (string, string, string) -> string)
    requires rule.field != ItemField.Url
    ensures ExecRename(item, [rule], replaceAll).Some?
    ensures GetFieldValue(ExecRename(item, [rule], replaceAll).value, rule.field) ==
      replaceAll(rule.pattern, GetFieldValue(item, rule.field), rule.newName)
  {
    assert [rule][1..] == [];
    assert ApplyRules(item, [rule], replaceAll) == ApplyRule(item, rule, replaceAll);
    FieldValueIsHeaderField(item, rule.field, replaceAll(rule.pattern, GetFieldValue(item, rule.field), rule.newName));
  }
}
