/**
 * Tokens of a dependency-annotated sentence.
 *
 * A sentence is a `seq<Word>` whose position 0 holds the synthetic root
 * token made by `CreateRoot`; the length of a sentence counts the root.
 */
module Words {

  /** One token: the eight columns of an annotated line, with `id` and `head`
      already converted to integers (`baseForm` is the lemma column). `head` is the gold governor's position;
      the root's is -1. `deprel` is carried but never read by the core. */
  datatype Word = Word(
    id: int,
    form: string,
    baseForm: string,   // the "lemma" column
    cpostag: string,
    postag: string,
    feats: string,
    head: int,
    deprel: string)

  /** The head value that marks "no governor" (the root's gold head, and the
      decoder's answer for position 0). */
  const NoHead: int := -1

  /** The synthetic root token placed at position 0 of every sentence. */
  function CreateRoot(): Word {
    Word(0, "<ROOT>", "<ROOT>", "ROOT", "ROOT", "", NoHead, "ROOT")
  }
}
