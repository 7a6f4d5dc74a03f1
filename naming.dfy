/**
 * File names the Jellyfin generator gives a session: one fixed name for a
 * movie, `S{season:02d}E{i:02d}.strm` for episodes 1..n of a series.
 */
module Naming {
  import opened Wrappers
  import opened Text
  import opened Collections

  const MovieName: string := "movie.strm"
  const Extension: string := ".strm"

  /** `f"S{season:02d}"`. */
  function SeasonPrefix(season: nat): string {
    "S" + Pad2(season)
  }

  /** `f"{season_prefix}E{episode:02d}.strm"`: it starts with `S`, has `E` right after the season prefix, and ends with `.strm`. */
  function EpisodeName(season: nat, episode: nat): (r: string)
    ensures |r| > |SeasonPrefix(season)| && r[0] == 'S' && r[|SeasonPrefix(season)|] == 'E'
    ensures EndsWith(r, Extension)
  {
    SeasonPrefix(season) + "E" + Pad2(episode) + Extension
  }

  /** `[f"{season_prefix}E{i:02d}.strm" for i in range(1, count + 1)]`. */
  function SeriesNames(season: nat, count: nat): (names: seq<string>)
    ensures |names| == count
  {
    seq(count, i requires 0 <= i < count => EpisodeName(season, i + 1))
  }

  /** The number between `S` and `E` of a series name, read back with `int()`. */
  function SeasonNumberOf(season: nat, name: string): Option<int> {
    var end := |SeasonPrefix(season)|;
    if end <= |name| then ParseInt(name[1..end]) else None
  }

  /** The number between `E` and `.strm` of a series name, read back with `int()`. */
  function EpisodeNumberOf(season: nat, name: string): Option<int> {
    var start := |SeasonPrefix(season)| + 1;
    if start <= |name| - |Extension| then ParseInt(name[start..|name| - |Extension|]) else None
  }

  /** Every episode name carries the season prefix and the extension, and both numbers read back unchanged. */
  lemma EpisodeNameParts(season: nat, episode: nat)
    ensures var name := EpisodeName(season, episode);
      && name[..|SeasonPrefix(season)|] == SeasonPrefix(season)
      && name[|SeasonPrefix(season)|] == 'E'
      && EndsWith(name, Extension)
      && SeasonNumberOf(season, name) == Some(season)
      && EpisodeNumberOf(season, name) == Some(episode)
  {
    var name := EpisodeName(season, episode);
    var p := SeasonPrefix(season);
    assert name[1..|p|] == Pad2(season);
    assert name[|p| + 1..|name| - |Extension|] == Pad2(episode);
    ParsePad2(season);
    ParsePad2(episode);
  }

  /**
   * A series of `count` episodes gets exactly `count` names; the i-th (from 1)
   * is episode i of the season, all share one season prefix, episode numbers
   * strictly increase along the list and no name repeats.
   */
  lemma SeriesNamesWellFormed(season: nat, count: nat)
    ensures var names := SeriesNames(season, count);
      && |names| == count
      && (forall i :: 0 <= i < count ==> names[i] == EpisodeName(season, i + 1))
      && (forall i :: 0 <= i < count ==>
            names[i][..|SeasonPrefix(season)|] == SeasonPrefix(season)
            && SeasonNumberOf(season, names[i]) == Some(season)
            && EpisodeNumberOf(season, names[i]) == Some(i + 1))
      && (forall i, j :: 0 <= i < j < count ==>
            EpisodeNumberOf(season, names[i]).value < EpisodeNumberOf(season, names[j]).value)
      && NoDup(names)
  {
    var names := SeriesNames(season, count);
    forall i | 0 <= i < count
      ensures names[i][..|SeasonPrefix(season)|] == SeasonPrefix(season)
      ensures SeasonNumberOf(season, names[i]) == Some(season)
      ensures EpisodeNumberOf(season, names[i]) == Some(i + 1)
    {
      EpisodeNameParts(season, i + 1);
    }
  }

  /** A movie session has the one fixed name, which no series name ever equals. */
  lemma MovieNameIsNotAnEpisode(season: nat, episode: nat)
    ensures EpisodeName(season, episode) != MovieName
  {
    assert EpisodeName(season, episode)[0] == 'S';
  }
}
