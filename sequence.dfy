/** The bridge's sequence counter and the text file that keeps it across
    restarts. The file's contents are modelled as Option<string>, None when
    the file does not exist. */
module SequenceStore {
  import opened Wrappers
  import opened PyText

  /** _load_sequence: int(text.strip()); 0 when the file is missing or its
      text is not an integer (FileNotFoundError, ValueError). No range check
      is made on what is read. */
  function LoadSequence(file: Option<string>): (n: int)
    ensures file.None? ==> n == 0
  {
    match file
    case None => 0
    case Some(text) =>
      match ParseInt(Strip(text))
      case None => 0
      case Some(v) => v
  }

  /** _save_sequence: str(n), the text int() reads back as n. */
  function SequenceText(n: int): (text: string)
    ensures ParseInt(text) == Some(n)
  {
    ParseIntOfIntToString(n);
    IntToString(n)
  }

  /** The increment before every send: (n + 1) % 256. Python's % with a
      positive divisor is never negative, as Dafny's is. */
  function NextSequence(n: int): (r: int)
    ensures 0 <= r < 256
    ensures 0 <= n < 255 ==> r == n + 1
    ensures n == 255 ==> r == 0
  {
    (n + 1) % 256
  }

  /** What is saved is what is loaded after a restart. */
  lemma LoadSavedSequence(n: int)
    ensures LoadSequence(Some(SequenceText(n))) == n
  {
    var text := IntToString(n);
    assert text == [] || (!IsSpace(text[0]) && !IsSpace(text[|text| - 1])) by {
      if n < 0 { assert text[0] == '-'; }
    }
    StripUnchanged(text);
  }

  /** A file that does not hold an integer reads as 0. */
  lemma LoadUnparsableSequence(text: string)
    requires ParseInt(Strip(text)).None?
    ensures LoadSequence(Some(text)) == 0
  {
  }

  /** From any loaded value, 256 sends bring the counter back to where the
      first send put it: the counter cycles through 0..255. */
  lemma SequenceCycles(n: int)
    ensures Iterate256(NextSequence(n)) == NextSequence(n)
  {
    CountFrom(NextSequence(n), 256);
  }

  function Advance(n: int, k: nat): int
    decreases k
  {
    if k == 0 then n else Advance(NextSequence(n), k - 1)
  }

  function Iterate256(n: int): int {
    Advance(n, 256)
  }

  lemma {:induction false} CountFrom(n: int, k: nat)
    requires 0 <= n < 256
    ensures Advance(n, k) == (n + k) % 256
    decreases k
  {
    if k > 0 {
      CountFrom(NextSequence(n), k - 1);
    }
  }
}
