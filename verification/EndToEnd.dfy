/** The two ends joined: what the receiving threads route of the messages that the send thread put on the wire. */
module EndToEnd {
  import opened Bytes
  import opened FrameParsing
  import opened ReceivePipeline
  import opened Letters

  /**
   In every run of the receiving threads, at every moment, when what has been received is some beginning of the
   letters' wire bytes, the messages routed are the letters in order, read back, as far as the letters are intact.
   */
  lemma RoutedAreTheLetters(actions: seq<Action>, s: Pipeline, letters: seq<Letter>, suggestedSize: nat, k: nat)
    requires Reaches(true, INITIAL, actions, s) && s.received <= WireOfLetters(letters, suggestedSize)
    requires k <= |letters| && AllSendable(letters[..k], suggestedSize) && AllIntact(letters[..k])
    ensures forall i | 0 <= i < |s.routed| && i < k :: letters[i].ReadBy(s.routed[i])
  {
    hide ParseFrames, Reaches, WireOfLetters, ReceivedLetters;
    RoutedIsPrefixOfParse(actions, s);
    MessagesOfPrefix(s.received, WireOfLetters(letters, suggestedSize));
    assert letters[..k] + letters[k..] == letters;
    IntactLettersFirst(letters[..k], letters[k..], suggestedSize);
    var messages := ReceivedLetters(letters[..k]);
    forall i | 0 <= i < |s.routed| && i < k ensures letters[i].ReadBy(s.routed[i]) {
      assert s.routed[i] == messages[i];
      assert letters[..k][i].ReadBy(messages[i]);
    }
  }

  /**
   When all letters are intact nothing else is ever routed, and once all their bytes are received and nothing is
   under way between the threads, all of them have been.
   */
  lemma AllLettersAreRouted(actions: seq<Action>, s: Pipeline, letters: seq<Letter>, suggestedSize: nat)
    requires Reaches(true, INITIAL, actions, s) && s.received <= WireOfLetters(letters, suggestedSize)
    requires AllSendable(letters, suggestedSize) && AllIntact(letters)
    ensures |s.routed| <= |letters| && forall i | 0 <= i < |s.routed| :: letters[i].ReadBy(s.routed[i])
    ensures s.received == WireOfLetters(letters, suggestedSize) && s.running && InTransit(s) == [] && s.pending == []
            ==> |s.routed| == |letters|
  {
    hide ParseFrames, Reaches, WireOfLetters, ReceivedLetters;
    EmptyEnds(letters);
    IntactLettersFirst(letters, [], suggestedSize);
    NoLetters(suggestedSize);
    ParseOfNothing(map[]);
    EmptyEnds(ReceivedLetters(letters));
    RoutedIsPrefixOfParse(actions, s);
    MessagesOfPrefix(s.received, WireOfLetters(letters, suggestedSize));
    assert letters[..|letters|] == letters;
    RoutedAreTheLetters(actions, s, letters, suggestedSize, |letters|);
  }
}
