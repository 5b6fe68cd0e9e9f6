/**
 * src/model/playlist.rs: the playlist records, the conversions between
 * Xtream clusters and item types with their display names, the named
 * field access on an item header, merging a group into a fetched
 * playlist, and the conversions of an item into its M3U and Xtream
 * forms, including the `#EXTINF` line.
 */
module Playlist {
  import opened Wrappers
  import opened RustChar
  import opened RustInt
  import opened JsonUtils
  import opened Seqs

  // ---------------------------------------------------------------------
  // Clusters and item types
  // ---------------------------------------------------------------------

  /** `XtreamCluster` */
  datatype XtreamCluster = Live | Video | Series

  /** `PlaylistItemType` */
  datatype PlaylistItemType = Live | Video | Series | SeriesInfo | SeriesEpisode | Catchup | LiveUnknown | LiveHls

  /** `XtreamCluster::as_str`, also its `Display` */
  function ClusterName(c: XtreamCluster): string {
    match c
    case Live => "Live"
    case Video => "Video"
    case Series => "Series"
  }

  /** The three kinds of live stream, which display alike. */
  predicate IsLiveKind(t: PlaylistItemType) {
    t == PlaylistItemType.Live || t == PlaylistItemType.LiveHls || t == PlaylistItemType.LiveUnknown
  }

  /** `Display for PlaylistItemType` */
  function ItemTypeName(t: PlaylistItemType): string {
    match t
    case Live | LiveHls | LiveUnknown => "live"
    case Video => "video"
    case Series => "series"
    case SeriesInfo => "series-info"
    case SeriesEpisode => "series-episode"
    case Catchup => "catchup"
  }

  /** `TryFrom<PlaylistItemType> for XtreamCluster` */
  function ClusterOf(t: PlaylistItemType): (r: Result<XtreamCluster, string>)
    ensures r.Ok? <==> t == PlaylistItemType.Live || t == PlaylistItemType.Video || t == PlaylistItemType.Series
    ensures r.Err? ==> r.error == "Cant convert " + ItemTypeName(t)
  {
    match t
    case Live => Ok(XtreamCluster.Live)
    case Video => Ok(XtreamCluster.Video)
    case Series => Ok(XtreamCluster.Series)
    case _ => Err("Cant convert " + ItemTypeName(t))
  }

  /** `From<XtreamCluster> for PlaylistItemType`: a series cluster stands for the fetched series info. */
  function ItemTypeOf(c: XtreamCluster): PlaylistItemType {
    match c
    case Live => PlaylistItemType.Live
    case Video => PlaylistItemType.Video
    case Series => PlaylistItemType.SeriesInfo
  }

  /** Cluster to item type and back is the identity except for series, which does not come back. */
  lemma ClusterRoundTrip(c: XtreamCluster)
    ensures c != XtreamCluster.Series ==> ClusterOf(ItemTypeOf(c)) == Ok(c)
    ensures c == XtreamCluster.Series ==> ClusterOf(ItemTypeOf(c)) == Err("Cant convert series-info")
  {
    assert "Cant convert " + "series-info" == "Cant convert series-info";
  }

  /** Item type to cluster and back: the identity on live and video, series becomes series info. */
  lemma ItemTypeRoundTrip(t: PlaylistItemType)
    requires ClusterOf(t).Ok?
    ensures ItemTypeOf(ClusterOf(t).value) == if t == PlaylistItemType.Series then PlaylistItemType.SeriesInfo else t
  {
  }

  /** Two item types display alike exactly when they are equal or both live kinds. */
  lemma ItemTypeNamesDistinct(a: PlaylistItemType, b: PlaylistItemType)
    ensures ItemTypeName(a) == ItemTypeName(b) <==> a == b || (IsLiveKind(a) && IsLiveKind(b))
  {
  }

  // ---------------------------------------------------------------------
  // Headers and named fields
  // ---------------------------------------------------------------------

  /** `PlaylistItemHeader`; `uuid` is the 32-byte hash of the url. */
  datatype PlaylistItemHeader = PlaylistItemHeader(
    uuid: seq<byte>,
    id: string,
    virtualId: u32,
    name: string,
    chno: string,
    logo: string,
    logoSmall: string,
    group: string,
    title: string,
    parentCode: string,
    audioTrack: string,
    timeShift: string,
    rec: string,
    url: string,
    epgChannelId: Option<string>,
    xtreamCluster: XtreamCluster,
    additionalProperties: Option<Json>,
    itemType: PlaylistItemType,
    seriesFetched: bool,
    categoryId: u32,
    inputId: u16)

  /** The header fields reachable by name (`virtual_id` is commented out of the accessor). */
  datatype HeaderField = Id | Name | Chno | Logo | LogoSmall | Group | Title | ParentCode | AudioTrack | TimeShift | Rec | Url | EpgChannelId

  /** The name the accessor knows a field by (the EPG id also answers to `epg_id`). */
  function FieldText(f: HeaderField): string {
    match f
    case Id => "id"
    case Name => "name"
    case Chno => "chno"
    case Logo => "logo"
    case LogoSmall => "logo_small"
    case Group => "group"
    case Title => "title"
    case ParentCode => "parent_code"
    case AudioTrack => "audio_track"
    case TimeShift => "time_shift"
    case Rec => "rec"
    case Url => "url"
    case EpgChannelId => "epg_channel_id"
  }

  /** The arms of the accessor's `match field`. */
  function FieldNamed(field: string): Option<HeaderField> {
    if field == "id" then Some(Id)
    else if field == "name" then Some(Name)
    else if field == "chno" then Some(Chno)
    else if field == "logo" then Some(Logo)
    else if field == "logo_small" then Some(LogoSmall)
    else if field == "group" then Some(Group)
    else if field == "title" then Some(Title)
    else if field == "parent_code" then Some(ParentCode)
    else if field == "audio_track" then Some(AudioTrack)
    else if field == "time_shift" then Some(TimeShift)
    else if field == "rec" then Some(Rec)
    else if field == "url" then Some(Url)
    else if field == "epg_channel_id" || field == "epg_id" then Some(EpgChannelId)
    else None
  }

  /** Every field answers to its own name, and a name picks a field only if it is that field's name or `epg_id`. */
  lemma FieldNames(f: HeaderField, field: string)
    ensures FieldNamed(FieldText(f)) == Some(f)
    ensures FieldNamed(field) == Some(f) ==> field == FieldText(f) || (f == EpgChannelId && field == "epg_id")
  {
    FieldNamedOwn(f);
    if FieldNamed(field).Some? {
      FieldNamedOnly(field);
    }
  }

  lemma FieldNamedOwn(f: HeaderField)
    ensures FieldNamed(FieldText(f)) == Some(f)
  {
    match f
    case Id =>
    case Name =>
    case Chno =>
    case Logo =>
    case LogoSmall =>
    case Group =>
    case Title =>
    case ParentCode =>
    case AudioTrack =>
    case TimeShift =>
    case Rec =>
    case Url =>
    case EpgChannelId =>
  }

  lemma FieldNamedOnly(field: string)
    requires FieldNamed(field).Some?
    ensures field == FieldText(FieldNamed(field).value) || field == "epg_id"
  {
  }

  function Read(h: PlaylistItemHeader, f: HeaderField): Option<string> {
    match f
    case Id => Some(h.id)
    case Name => Some(h.name)
    case Chno => Some(h.chno)
    case Logo => Some(h.logo)
    case LogoSmall => Some(h.logoSmall)
    case Group => Some(h.group)
    case Title => Some(h.title)
    case ParentCode => Some(h.parentCode)
    case AudioTrack => Some(h.audioTrack)
    case TimeShift => Some(h.timeShift)
    case Rec => Some(h.rec)
    case Url => Some(h.url)
    case EpgChannelId => h.epgChannelId
  }

  function Write(h: PlaylistItemHeader, f: HeaderField, value: string): PlaylistItemHeader {
    match f
    case Id => h.(id := value)
    case Name => h.(name := value)
    case Chno => h.(chno := value)
    case Logo => h.(logo := value)
    case LogoSmall => h.(logoSmall := value)
    case Group => h.(group := value)
    case Title => h.(title := value)
    case ParentCode => h.(parentCode := value)
    case AudioTrack => h.(audioTrack := value)
    case TimeShift => h.(timeShift := value)
    case Rec => h.(rec := value)
    case Url => h.(url := value)
    case EpgChannelId => h.(epgChannelId := Some(value))
  }

  /** `FieldAccessor::get_field` */
  function GetField(h: PlaylistItemHeader, field: string): (r: Option<string>)
    ensures FieldNamed(field).None? ==> r.None?
    ensures FieldNamed(field).Some? && FieldNamed(field) != Some(EpgChannelId) ==> r.Some?
  {
    match FieldNamed(field)
    case Some(f) => Read(h, f)
    case None => None
  }

  /** `FieldAccessor::set_field`: the updated header and whether the name was known. */
  function SetField(h: PlaylistItemHeader, field: string, value: string): (r: (PlaylistItemHeader, bool))
    ensures r.1 <==> FieldNamed(field).Some?
    ensures !r.1 ==> r.0 == h
  {
    match FieldNamed(field)
    case Some(f) => (Write(h, f, value), true)
    case None => (h, false)
  }

  /** The fields no name reaches agree. */
  predicate SameHiddenFields(a: PlaylistItemHeader, b: PlaylistItemHeader) {
    && a.uuid == b.uuid && a.virtualId == b.virtualId && a.xtreamCluster == b.xtreamCluster
    && a.additionalProperties == b.additionalProperties && a.itemType == b.itemType
    && a.seriesFetched == b.seriesFetched && a.categoryId == b.categoryId && a.inputId == b.inputId
  }

  /** A header is determined by its hidden fields and what every named field reads. */
  lemma HeaderByFields(a: PlaylistItemHeader, b: PlaylistItemHeader)
    requires SameHiddenFields(a, b)
    requires forall f :: Read(a, f) == Read(b, f)
    ensures a == b
  {
    assert a.id == b.id by { assert Read(a, Id) == Read(b, Id); }
    assert a.name == b.name by { assert Read(a, Name) == Read(b, Name); }
    assert a.chno == b.chno by { assert Read(a, Chno) == Read(b, Chno); }
    assert a.logo == b.logo by { assert Read(a, Logo) == Read(b, Logo); }
    assert a.logoSmall == b.logoSmall by { assert Read(a, LogoSmall) == Read(b, LogoSmall); }
    assert a.group == b.group by { assert Read(a, Group) == Read(b, Group); }
    assert a.title == b.title by { assert Read(a, Title) == Read(b, Title); }
    assert a.parentCode == b.parentCode by { assert Read(a, ParentCode) == Read(b, ParentCode); }
    assert a.audioTrack == b.audioTrack by { assert Read(a, AudioTrack) == Read(b, AudioTrack); }
    assert a.timeShift == b.timeShift by { assert Read(a, TimeShift) == Read(b, TimeShift); }
    assert a.rec == b.rec by { assert Read(a, Rec) == Read(b, Rec); }
    assert a.url == b.url by { assert Read(a, Url) == Read(b, Url); }
    assert a.epgChannelId == b.epgChannelId by { assert Read(a, EpgChannelId) == Read(b, EpgChannelId); }
  }

  /** Writing a field makes it read the value and leaves every other field, hidden or named, as it was. */
  lemma WriteThenRead(h: PlaylistItemHeader, f: HeaderField, value: string)
    ensures SameHiddenFields(h, Write(h, f, value))
    ensures Read(Write(h, f, value), f) == Some(value)
    ensures forall g :: g != f ==> Read(Write(h, f, value), g) == Read(h, g)
  {
  }

  /**
   * Setting a known name succeeds, after which that name (and its alias,
   * for the EPG id) reads the new value and every other name reads as
   * before.
   */
  lemma SetThenGet(h: PlaylistItemHeader, field: string, value: string, other: string)
    requires FieldNamed(field).Some?
    ensures SetField(h, field, value).1
    ensures SameHiddenFields(h, SetField(h, field, value).0)
    ensures GetField(SetField(h, field, value).0, other) ==
      if FieldNamed(other) == FieldNamed(field) then Some(value) else GetField(h, other)
  {
    WriteThenRead(h, FieldNamed(field).value, value);
  }

  /** The two names of the EPG id reach the same field. */
  lemma EpgAliases(h: PlaylistItemHeader, value: string)
    ensures GetField(h, "epg_id") == GetField(h, "epg_channel_id") == h.epgChannelId
    ensures SetField(h, "epg_id", value) == SetField(h, "epg_channel_id", value)
    ensures SetField(h, "epg_id", value).0.epgChannelId == Some(value)
  {
  }

  /** An unknown name, `virtual_id` among them, reads nothing and sets nothing. */
  lemma UnknownField(h: PlaylistItemHeader, field: string, value: string)
    requires FieldNamed(field).None?
    ensures GetField(h, field) == None
    ensures SetField(h, field, value) == (h, false)
  {
  }

  lemma VirtualIdIsUnknown(h: PlaylistItemHeader, value: string)
    ensures SetField(h, "virtual_id", value) == (h, false)
    ensures GetField(h, "virtual_id") == None
  {
  }

  // ---------------------------------------------------------------------
  // Items and groups
  // ---------------------------------------------------------------------

  /** `PlaylistItem`: a header (the source's `RefCell` becomes a plain value). */
  datatype PlaylistItem = PlaylistItem(header: PlaylistItemHeader)

  /** `PlaylistGroup` */
  datatype PlaylistGroup = PlaylistGroup(id: u32, title: string, channels: seq<PlaylistItem>, xtreamCluster: XtreamCluster)

  /** The index of the first group with the given id. */
  function FirstWithId(groups: seq<PlaylistGroup>, id: u32): (r: Option<nat>)
    ensures r.Some? ==> r.value < |groups| && groups[r.value].id == id
    ensures r.Some? ==> forall j :: 0 <= j < r.value ==> groups[j].id != id
    ensures r.None? <==> forall j :: 0 <= j < |groups| ==> groups[j].id != id
    decreases |groups|
  {
    if |groups| == 0 then None
    else if groups[0].id == id then Some(0)
    else match FirstWithId(groups[1..], id)
      case Some(i) => Some(i + 1)
      case None => None
  }

  /**
   * `FetchedPlaylist::update_playlist` on the fetched groups: the
   * channels of plg are appended, in order, to the first group with
   * plg's id, and to no other; without such a group nothing changes.
   */
  function UpdatePlaylist(groups: seq<PlaylistGroup>, plg: PlaylistGroup): (r: seq<PlaylistGroup>)
    ensures match FirstWithId(groups, plg.id)
      case None => r == groups
      case Some(i) => r == groups[i := groups[i].(channels := groups[i].channels + plg.channels)]
    decreases |groups|
  {
    if |groups| == 0 then []
    else if groups[0].id == plg.id then [groups[0].(channels := groups[0].channels + plg.channels)] + groups[1..]
    else [groups[0]] + UpdatePlaylist(groups[1..], plg)
  }

  // ---------------------------------------------------------------------
  // M3U form
  // ---------------------------------------------------------------------

  /** `M3uPlaylistItem` */
  datatype M3uPlaylistItem = M3uPlaylistItem(
    virtualId: u32,
    providerId: string,
    name: string,
    chno: string,
    logo: string,
    logoSmall: string,
    group: string,
    title: string,
    parentCode: string,
    audioTrack: string,
    timeShift: string,
    rec: string,
    url: string,
    epgChannelId: Option<string>,
    inputId: u16,
    itemType: PlaylistItemType)

  /** The part of `ConfigTargetOptions` the serialiser reads. */
  datatype TargetOptions = TargetOptions(ignoreLogo: bool)

  /** One attribute as the macro formats it: a space, the attr, '=' and the quoted value. */
  function Attribute(attr: string, value: string): string {
    " " + attr + "=\"" + value + "\""
  }

  /** `to_m3u_non_empty_fields!` for one field. */
  function AppendNonEmpty(line: string, value: string, attr: string): (r: string)
    ensures |value| == 0 ==> r == line
    ensures |value| > 0 ==> r == line + Attribute(attr, value)
  {
    if |value| == 0 then line else line + " " + attr + "=\"" + value + "\""
  }

  /** The mandatory start of the `#EXTINF` line. */
  function ExtinfHead(item: M3uPlaylistItem): string {
    "#EXTINF:-1 tvg-id=\"" + item.epgChannelId.GetOr("") + "\" tvg-name=\"" + item.name + "\" group-title=\"" + item.group + "\""
  }

  /** The optional attributes in output order, with their labels; the logos only when not ignored. */
  function AttributeTable(item: M3uPlaylistItem, ignoreLogo: bool): seq<(string, string)> {
    (if ignoreLogo then [] else [("tvg-logo", item.logo), ("tvg-logo-small", item.logoSmall)])
    + [("tvg-chno", item.chno), ("parent-code", item.parentCode), ("audio-track", item.audioTrack),
       ("timeshift", item.timeShift), ("tvg-rec", item.rec)]
  }

  /** The macro over a list of fields: one `AppendNonEmpty` step per field, in order. */
  function AppendAll(line: string, attrs: seq<(string, string)>): string
    decreases |attrs|
  {
    if |attrs| == 0 then line else AppendAll(AppendNonEmpty(line, attrs[0].1, attrs[0].0), attrs[1..])
  }

  /**
   * `M3uPlaylistItem::to_m3u`: the `#EXTINF` line in the M3U extended
   * format, a comma and the title, then on the next line the given url
   * or else the item's own.
   */
  function ToM3u(item: M3uPlaylistItem, options: Option<TargetOptions>, url: Option<string>): string {
    var ignoreLogo := options.Some? && options.value.ignoreLogo;
    AppendAll(ExtinfHead(item), AttributeTable(item, ignoreLogo)) + Trailer(item.title, url.GetOr(item.url))
  }

  /** What follows the attributes: a comma and the title, then the url on a line of its own. */
  function Trailer(title: string, url: string): string {
    "," + title + "\n" + url
  }

  /** The rendering of the attributes with a non-empty value, in order. */
  function RenderPresent(attrs: seq<(string, string)>): string
    decreases |attrs|
  {
    if |attrs| == 0 then ""
    else (if |attrs[0].1| == 0 then "" else Attribute(attrs[0].0, attrs[0].1)) + RenderPresent(attrs[1..])
  }

  lemma {:induction false} AppendAllRenders(line: string, attrs: seq<(string, string)>)
    ensures AppendAll(line, attrs) == line + RenderPresent(attrs)
    decreases |attrs|
  {
    if |attrs| > 0 {
      var next := AppendNonEmpty(line, attrs[0].1, attrs[0].0);
      AppendAllRenders(next, attrs[1..]);
      var first := if |attrs[0].1| == 0 then "" else Attribute(attrs[0].0, attrs[0].1);
      assert next == line + first;
      assert RenderPresent(attrs) == first + RenderPresent(attrs[1..]);
      ConcatAssoc(line, first, RenderPresent(attrs[1..]));
    } else {
      assert line + "" == line;
    }
  }

  /** A concatenation starts with its first part and ends with its last. */
  lemma ConcatFrame(head: string, mid: string, tail: string)
    ensures var r := head + mid + tail;
      && |head| <= |r| && r[..|head|] == head
      && |tail| <= |r| && r[|r| - |tail|..] == tail
  {
    var r := head + mid + tail;
    assert r[..|head|] == head;
    assert r[|r| - |tail|..] == tail;
  }

  /**
   * The `#EXTINF` line is the head, the rendering of every optional
   * attribute whose value is non-empty (logos left out when ignored),
   * then the title and the url; so it starts with the head and ends with
   * the title and url.
   */
  lemma ToM3uShape(item: M3uPlaylistItem, options: Option<TargetOptions>, url: Option<string>)
    ensures var ignoreLogo := options.Some? && options.value.ignoreLogo;
      var tail := Trailer(item.title, url.GetOr(item.url));
      var r := ToM3u(item, options, url);
      && r == ExtinfHead(item) + RenderPresent(AttributeTable(item, ignoreLogo)) + tail
      && |ExtinfHead(item)| <= |r| && r[..|ExtinfHead(item)|] == ExtinfHead(item)
      && |tail| <= |r| && r[|r| - |tail|..] == tail
  {
    var ignoreLogo := options.Some? && options.value.ignoreLogo;
    var table := AttributeTable(item, ignoreLogo);
    AppendAllRenders(ExtinfHead(item), table);
    ConcatFrame(ExtinfHead(item), RenderPresent(table), Trailer(item.title, url.GetOr(item.url)));
  }

  /** The attributes with a non-empty value, in order. */
  function Present(attrs: seq<(string, string)>): (r: seq<(string, string)>)
    ensures forall x :: x in r <==> x in attrs && |x.1| > 0
    ensures |r| <= |attrs|
    decreases |attrs|
  {
    if |attrs| == 0 then []
    else (if |attrs[0].1| == 0 then [] else [attrs[0]]) + Present(attrs[1..])
  }

  /** Every attribute written as it is. */
  function Render(attrs: seq<(string, string)>): string
    decreases |attrs|
  {
    if |attrs| == 0 then "" else Attribute(attrs[0].0, attrs[0].1) + Render(attrs[1..])
  }

  /** The rendering skips exactly the attributes whose value is empty and writes the others in order. */
  lemma {:induction false} RenderPresentIsRenderOfPresent(attrs: seq<(string, string)>)
    ensures RenderPresent(attrs) == Render(Present(attrs))
    decreases |attrs|
  {
    if |attrs| > 0 {
      RenderPresentIsRenderOfPresent(attrs[1..]);
      if |attrs[0].1| == 0 {
        assert Present(attrs) == Present(attrs[1..]);
      } else {
        assert Present(attrs) == [attrs[0]] + Present(attrs[1..]);
        assert Present(attrs)[0] == attrs[0] && Present(attrs)[1..] == Present(attrs[1..]);
      }
    }
  }

  /** The logo attributes are in the table exactly when logos are not ignored; the others always are. */
  lemma AttributeTableLogos(item: M3uPlaylistItem, ignoreLogo: bool)
    ensures ("tvg-logo", item.logo) in AttributeTable(item, ignoreLogo) <==> !ignoreLogo
    ensures ("tvg-logo-small", item.logoSmall) in AttributeTable(item, ignoreLogo) <==> !ignoreLogo
    ensures ("tvg-chno", item.chno) in AttributeTable(item, ignoreLogo)
    ensures ("tvg-rec", item.rec) in AttributeTable(item, ignoreLogo)
    ensures ignoreLogo ==> forall x :: x in AttributeTable(item, ignoreLogo) ==> x.0 != "tvg-logo" && x.0 != "tvg-logo-small"
  {
    if !ignoreLogo {
      assert AttributeTable(item, ignoreLogo)[0] == ("tvg-logo", item.logo);
      assert AttributeTable(item, ignoreLogo)[1] == ("tvg-logo-small", item.logoSmall);
    }
  }

  // ---------------------------------------------------------------------
  // Conversions of an item
  // ---------------------------------------------------------------------

  /** `XtreamPlaylistItem` */
  datatype XtreamPlaylistItem = XtreamPlaylistItem(
    virtualId: u32,
    providerId: u32,
    name: string,
    logo: string,
    logoSmall: string,
    group: string,
    title: string,
    parentCode: string,
    rec: string,
    url: string,
    epgChannelId: Option<string>,
    xtreamCluster: XtreamCluster,
    additionalProperties: Option<string>,
    itemType: PlaylistItemType,
    seriesFetched: bool,
    categoryId: u32,
    inputId: u16)

  /** `PlaylistItem::to_m3u`: the header's fields, the id as provider id. */
  function ItemToM3u(item: PlaylistItem): M3uPlaylistItem {
    var h := item.header;
    M3uPlaylistItem(h.virtualId, h.id, h.name, h.chno, h.logo, h.logoSmall, h.group, h.title,
                    h.parentCode, h.audioTrack, h.timeShift, h.rec, h.url, h.epgChannelId, h.inputId, h.itemType)
  }

  /**
   * `PlaylistItem::to_xtream`: the header's fields, the id parsed as a
   * `u32` (0 when it does not parse), and the extra properties rendered
   * by the JSON encoder `toJson` (`serde_json::to_string`).
   */
  function ItemToXtream(item: PlaylistItem, toJson: Json -> Option<string>): (r: XtreamPlaylistItem)
    ensures r.providerId as int == ParseU32(item.header.id).GetOr(0)
  {
    var h := item.header;
    var providerId := ParseU32(h.id).GetOr(0) as u32;
    var props := match h.additionalProperties
      case Some(p) => toJson(p)
      case None => None;
    XtreamPlaylistItem(h.virtualId, providerId, h.name, h.logo, h.logoSmall, h.group, h.title,
                       h.parentCode, h.rec, h.url, h.epgChannelId, h.xtreamCluster, props,
                       h.itemType, h.seriesFetched, h.categoryId, h.inputId)
  }

  /**
   * The M3U and Xtream forms of an item agree on every field they share,
   * and the Xtream provider id is the M3U one parsed.
   */
  lemma FormsAgree(item: PlaylistItem, toJson: Json -> Option<string>)
    ensures var m := ItemToM3u(item);
      var x := ItemToXtream(item, toJson);
      && m.virtualId == x.virtualId && m.name == x.name && m.logo == x.logo && m.logoSmall == x.logoSmall
      && m.group == x.group && m.title == x.title && m.parentCode == x.parentCode && m.rec == x.rec
      && m.url == x.url && m.epgChannelId == x.epgChannelId && m.itemType == x.itemType && m.inputId == x.inputId
      && x.providerId as int == ParseU32(m.providerId).GetOr(0)
  {
  }

  /** An id written as a `u32` comes back as that number; an id with a non-digit gives 0. */
  lemma ProviderIdOfDecimal(item: PlaylistItem, toJson: Json -> Option<string>, n: u32)
    requires item.header.id == ToDecimal(n as int)
    ensures ItemToXtream(item, toJson).providerId == n
  {
    ParseToDecimal(n as int, false, 0, U32Max);
  }

  lemma ProviderIdOfNonDigit(item: PlaylistItem, toJson: Json -> Option<string>, i: nat)
    requires 0 < i < |item.header.id| && !IsAsciiDigit(item.header.id[i])
    ensures ItemToXtream(item, toJson).providerId == 0
  {
    ParseRejectsNonDigit(item.header.id, false, 0, U32Max, i);
  }

  /** The M3U line of an item shows its EPG id, name and group first and its title and url last. */
  lemma ItemLine(item: PlaylistItem, options: Option<TargetOptions>)
    ensures var h := item.header;
      var head := "#EXTINF:-1 tvg-id=\"" + h.epgChannelId.GetOr("") + "\" tvg-name=\"" + h.name + "\" group-title=\"" + h.group + "\"";
      var tail := "," + h.title + "\n" + h.url;
      var line := ToM3u(ItemToM3u(item), options, None);
      && |head| <= |line| && line[..|head|] == head
      && |tail| <= |line| && line[|line| - |tail|..] == tail
  {
    ToM3uShape(ItemToM3u(item), options, None);
  }
}
