/** Frontmatter as the host's metadata cache hands it out: a map from keys to
    YAML values, and the JavaScript readings of those values the plugin uses. */
module Frontmatter {

  /** One entry of a question file's `questions` list (`QuestionAnswerPair` in
      the type definitions). */
  datatype QuestionAnswerPair = QuestionAnswerPair(question: string, answer: string)

  /** A frontmatter value. `Null` is YAML's empty value; `QuestionList` is the
      only structured value the plugin writes. */
  datatype Value =
    | Null
    | Bool(b: bool)
    | Num(n: int)
    | Str(s: string)
    | QuestionList(items: seq<QuestionAnswerPair>)

  type Frontmatter = map<string, Value>

  /** JavaScript truthiness. Arrays are truthy even when empty. */
  predicate Truthy(v: Value) {
    match v
    case Null => false
    case Bool(b) => b
    case Num(n) => n != 0
    case Str(s) => s != ""
    case QuestionList(_) => true
  }

  /** `Object.assign(frontmatter, update)`: keys of `update` take its values,
      every other key keeps its old value. */
  function Merge(frontmatter: Frontmatter, update: Frontmatter): (r: Frontmatter)
    ensures r.Keys == frontmatter.Keys + update.Keys
    ensures forall k :: k in update ==> r[k] == update[k]
    ensures forall k :: k in frontmatter && k !in update ==> r[k] == frontmatter[k]
  {
    frontmatter + update
  }

  /** Writing the same update twice is the same as writing it once. */
  lemma MergeIdempotent(frontmatter: Frontmatter, update: Frontmatter)
    ensures Merge(Merge(frontmatter, update), update) == Merge(frontmatter, update)
  {
  }

  /** Merging a copy of the current frontmatter with one key changed changes
      only that key. */
  lemma MergeSnapshot(frontmatter: Frontmatter, key: string, v: Value)
    ensures Merge(frontmatter, frontmatter[key := v]) == frontmatter[key := v]
  {
  }
}
