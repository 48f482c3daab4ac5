/** The records the server keeps and sends: talks, their comments, and the
    entries of a change list. */
module Talks {

  /** A comment on a talk; comments are only ever appended. */
  datatype Comment = Comment(author: string, message: string)

  /** One talk, stored under its title. */
  datatype Talk = Talk(title: string, presenter: string, summary: string, comments: seq<Comment>)

  /** An element of a change list: the talk as it is now, or the marker
      `{title, deleted: true}` for a title that is no longer stored. */
  datatype Entry = Live(talk: Talk) | Deleted(title: string) {
    function Title(): string {
      if Live? then talk.title else title
    }
  }

  /** Every talk is stored under its own title. */
  ghost predicate WellKeyed(talks: map<string, Talk>) {
    forall t :: t in talks ==> talks[t].title == t
  }

  /** The titles a list of entries mentions. */
  ghost function Titles(es: seq<Entry>): set<string> {
    set e | e in es :: e.Title()
  }

  /** `list` holds every stored talk exactly once, and nothing else. */
  ghost predicate ListsAll(list: seq<Talk>, talks: map<string, Talk>) {
    && |list| == |talks|
    && (forall k :: 0 <= k < |list| ==> list[k].title in talks && talks[list[k].title] == list[k])
    && (forall i, j :: 0 <= i < j < |list| ==> list[i].title != list[j].title)
    && (forall t :: t in talks ==> talks[t] in list)
  }
}
