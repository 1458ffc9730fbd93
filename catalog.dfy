/**
 * The syllabus catalog as the matcher receives it: entries decoded from the
 * JSON catalog, where `weight`, `keywords`, `subtopics` and a subtopic's
 * `name` and `keywords` may be absent, and the values the matcher builds.
 */
module Catalog {

  datatype Option<T> = None | Some(value: T) {
    /** Python's `d.get(key, default)` once the lookup has produced this option. */
    function GetOr(default: T): T {
      match this
      case Some(v) => v
      case None => default
    }
  }

  /** A named group of keywords beneath an entry. */
  datatype Subtopic = Subtopic(name: Option<string>, keywords: Option<seq<string>>)

  /** One syllabus topic with its citation and its keywords. */
  datatype Entry = Entry(
    topic: string,
    syllabusReference: string,
    book: string,
    chapter: string,
    pageRange: string,
    weight: Option<int>,
    keywords: Option<seq<string>>,
    subtopics: Option<seq<Subtopic>>)

  /** `entry.get("weight", 1)` */
  function Weight(e: Entry): int {
    e.weight.GetOr(1)
  }

  /** `entry.get("keywords", [])` */
  function Keywords(e: Entry): seq<string> {
    e.keywords.GetOr([])
  }

  /** `entry.get("subtopics", [])` */
  function Subtopics(e: Entry): seq<Subtopic> {
    e.subtopics.GetOr([])
  }

  /** `sub.get("keywords", [])` */
  function SubKeywords(sub: Subtopic): seq<string> {
    sub.keywords.GetOr([])
  }

  /** The triple `(score, entry, matched_sub)` the matcher collects for each entry it keeps. */
  datatype Hit = Hit(score: int, entry: Entry, matchedSub: seq<Option<string>>)

  /**
   * A result: a copy of the catalog entry with its `score` and, only when
   * some subtopic matched, its `matched_subtopics`.
   */
  datatype ScoredMatch = ScoredMatch(entry: Entry, score: int, matchedSubtopics: Option<seq<Option<string>>>)
}
