/** What the grounded-answer service works on: retrieved items, chunk texts, citations, and its result
    (rag/answer_service.py). */
module Context {
  import opened Common

  // ---- Retrieved chunks ----

  datatype Item = Item(chunkId: string, sourceId: string)

  function TextOf(texts: map<string, string>, id: string): string {
    if id in texts then texts[id] else ""
  }

  /** Source of each retrieved chunk; of an identifier retrieved twice, the later one's. */
  function Retrieved(items: seq<Item>): map<string, string> {
    if items == [] then map[]
    else
      var last := items[|items| - 1];
      Retrieved(items[..|items| - 1])[last.chunkId := last.sourceId]
  }

  /** This item was retrieved, and no later one has the same identifier. */
  predicate LastRetrieved(items: seq<Item>, i: nat, id: string) {
    i < |items| && items[i].chunkId == id && forall j :: i < j < |items| ==> items[j].chunkId != id
  }

  /** An identifier is known exactly when an item has it, and then with the source of the last such item. */
  lemma {:induction false} RetrievedExactlyWhen(items: seq<Item>, id: string)
    ensures id in Retrieved(items) <==> exists i: nat :: LastRetrieved(items, i, id)
    ensures forall i: nat :: LastRetrieved(items, i, id) ==>
      id in Retrieved(items) && Retrieved(items)[id] == items[i].sourceId
  {
    if items != [] {
      var init, last := items[..|items| - 1], |items| - 1;
      RetrievedExactlyWhen(init, id);
      forall i: nat ensures LastRetrieved(items, i, id) <==>
        if items[last].chunkId == id then i == last else LastRetrieved(init, i, id)
      {
        LastRetrievedStep(items, i, id);
      }
      LastRetrievedStep(items, last, id);
    }
  }

  lemma LastRetrievedStep(items: seq<Item>, i: nat, id: string)
    requires items != []
    ensures var init, last := items[..|items| - 1], |items| - 1;
      LastRetrieved(items, i, id) <==> if items[last].chunkId == id then i == last else LastRetrieved(init, i, id)
  {
  }

  // ---- Citations ----

  /** Cited chunks by source. */
  type Citations = map<string, set<string>>

  function AddCitation(c: Citations, source: string, id: string): Citations {
    c[source := (if source in c then c[source] else {}) + {id}]
  }

  predicate Cites(c: Citations, source: string, id: string) {
    source in c && id in c[source]
  }

  /** The citations hold exactly these pairs of source and chunk, and no source without a chunk. */
  ghost predicate Groups(c: Citations, pairs: set<(string, string)>) {
    && (forall source, id :: Cites(c, source, id) <==> (source, id) in pairs)
    && (forall source :: source in c ==> c[source] != {})
  }

  lemma GroupsAdd(c: Citations, pairs: set<(string, string)>, source: string, id: string)
    requires Groups(c, pairs)
    ensures Groups(AddCitation(c, source, id), pairs + {(source, id)})
  {
  }

  lemma GroupsEmpty(c: Citations, pairs: set<(string, string)>)
    requires Groups(c, pairs)
    ensures c == map[] <==> pairs == {}
  {
    if c != map[] {
      var source :| source in c;
      assert c[source] != {};
      var id :| id in c[source];
      assert Cites(c, source, id);
    }
    if pairs != {} {
      var p :| p in pairs;
      assert Cites(c, p.0, p.1);
    }
  }

  // ---- Result ----

  datatype AnswerResult = AnswerResult(
    answerText: string, refused: bool, citations: Citations, degraded: bool, reason: Option<string>,
    zeroResult: bool, usedFallback: bool, dropped: nat, total: nat, retrieved: seq<string>)

  /** Answers carry claims and citations; refusals carry no citation. */
  predicate WellFormed(a: AnswerResult) {
    && (a.refused <==> a.citations == map[])
    && (a.refused <==> a.total <= a.dropped)
    && a.dropped <= a.total
  }
}
