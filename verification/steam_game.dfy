/** `SteamGameDTO`: a game as the catalogue file describes it, and its
    conversion into a `game` row. */
module SteamGame {
  import opened Wrappers
  import opened Text
  import opened Numbers

  /** A calendar date (`LocalDate`) as a day number. */
  type Date = int

  /** One entry of the catalogue file; every field may be absent. */
  datatype GameDto = GameDto(appId: Option<int>, name: Option<string>, headerImage: Option<string>, releaseDate: Option<string>)

  /** The columns of a `game` row that the conversion fills. */
  datatype Game = Game(appid: Option<int>, name: Option<string>, headerImageUrl: Option<string>, releaseDate: Option<Date>)

  /** The two `DateTimeFormatter` patterns, "d MMM, uuuu" and "d MMM uuuu",
      as partial functions: library code, so parameters. */
  datatype DateParsers = DateParsers(withComma: string -> Option<Date>, withoutComma: string -> Option<Date>)

  /** Release dates that mean "no date yet". */
  predicate IsPlaceholderDate(s: string) {
    |s| == 0 || EqualsIgnoreCase(s, "TBA") || EqualsIgnoreCase(s, "Coming Soon")
  }

  /** The release date: none for a missing or placeholder value; otherwise
      the comma pattern, then the comma-less pattern on the text with its
      commas removed; an unparsable text gives no date rather than an
      error. */
  function ParseReleaseDate(p: DateParsers, s: Option<string>): (r: Option<Date>)
    ensures s.None? || IsPlaceholderDate(s.value) ==> r.None?
    ensures s.Some? && !IsPlaceholderDate(s.value) ==>
      r == (if p.withComma(s.value).Some? then p.withComma(s.value) else p.withoutComma(RemoveCommas(s.value)))
  {
    match s
    case None => None
    case Some(text) =>
      if IsPlaceholderDate(text) then None
      else
        match p.withComma(text)
        case Some(d) => Some(d)
        case None => p.withoutComma(RemoveCommas(text))
  }

  /** `toEntity`: the 64-bit identifier narrowed by `intValue()`, the name and
      image copied, the date parsed. */
  function ToEntity(p: DateParsers, dto: GameDto): (g: Game)
    ensures g.appid.None? <==> dto.appId.None?
    ensures dto.appId.Some? ==> g.appid == Some(IntValue(dto.appId.value))
    ensures g.name == dto.name && g.headerImageUrl == dto.headerImage
    ensures g.releaseDate == ParseReleaseDate(p, dto.releaseDate)
  {
    Game(if dto.appId.Some? then Some(IntValue(dto.appId.value)) else None,
         dto.name, dto.headerImage, ParseReleaseDate(p, dto.releaseDate))
  }

  /** Two Steam identifiers 2^32 apart become the same `appid`. */
  lemma {:induction false} NarrowedIdsCollide(p: DateParsers, a: GameDto, b: GameDto)
    requires a.appId.Some? && b.appId == Some(a.appId.value + TwoTo32)
    ensures ToEntity(p, a).appid == ToEntity(p, b).appid
  {
    IntValueFacts(a.appId.value);
  }

  /** The placeholders are recognised whatever their case. */
  lemma {:induction false} PlaceholdersIgnoreCase(p: DateParsers)
    ensures ParseReleaseDate(p, Some("tba")).None?
    ensures ParseReleaseDate(p, Some("COMING SOON")).None?
  {
    assert EqualsIgnoreCase("tba", "TBA");
    assert EqualsIgnoreCase("COMING SOON", "Coming Soon");
  }
}
