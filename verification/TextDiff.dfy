// The splice computed for every keystroke, and the text binding that applies it.
module TextDiff {

  // JavaScript strings are sequences of UTF-16 code units.
  type CodeUnit = u: int | 0 <= u < 0x1_0000
  type Text = seq<CodeUnit>

  datatype Diff = Diff(start: nat, deleteLength: nat, insertText: Text)

  /** The `i`-th unit counted from the end. */
  function FromEnd(s: Text, i: nat): CodeUnit
    requires i < |s|
  {
    s[|s| - 1 - i]
  }

  /** Deleting `deleted` units at `start` and inserting `inserted` there. */
  function Splice(before: Text, start: nat, deleted: nat, inserted: Text): Text
    requires start + deleted <= |before|
  {
    before[..start] + inserted + before[start + deleted..]
  }

  /** A splice keeps `start` units in front and the rest behind: both are common to the old and the new text. */
  lemma SpliceKeeps(before: Text, after: Text, start: nat, deleted: nat, inserted: Text)
    requires start + deleted <= |before| && Splice(before, start, deleted, inserted) == after
    ensures var kept := |before| - start - deleted;
            && |after| == start + |inserted| + kept
            && (forall i :: 0 <= i < start ==> before[i] == after[i])
            && (forall i :: 0 <= i < kept ==> FromEnd(before, i) == FromEnd(after, i))
  {
    var kept := |before| - start - deleted;
    forall i | 0 <= i < kept ensures FromEnd(before, i) == FromEnd(after, i) {
      assert after[start + |inserted|..][kept - 1 - i] == before[start + deleted..][kept - 1 - i];
    }
  }

  /** Turns old into new, with the fewest deleted and inserted units any single splice can do it with. */
  method ComputeTextDiff(oldValue: Text, newValue: Text) returns (d: Diff)
    ensures d.start + d.deleteLength <= |oldValue|
    ensures Splice(oldValue, d.start, d.deleteLength, d.insertText) == newValue
    ensures forall start: nat, deleted: nat, inserted: Text ::
              start + deleted <= |oldValue| && Splice(oldValue, start, deleted, inserted) == newValue ==>
                d.deleteLength + |d.insertText| <= deleted + |inserted|
    ensures (d.deleteLength == 0 && d.insertText == []) <==> oldValue == newValue
  {
    var shorter := if |oldValue| < |newValue| then |oldValue| else |newValue|;
    var prefixLength := 0;
    while prefixLength < shorter && oldValue[prefixLength] == newValue[prefixLength]
      invariant 0 <= prefixLength <= shorter
      invariant oldValue[..prefixLength] == newValue[..prefixLength]
    {
      prefixLength := prefixLength + 1;
    }

    var suffixLength := 0;
    var maxSuffix := shorter - prefixLength;
    while suffixLength < maxSuffix
      && FromEnd(oldValue, suffixLength) == FromEnd(newValue, suffixLength)
      invariant 0 <= suffixLength <= maxSuffix
      invariant oldValue[|oldValue| - suffixLength..] == newValue[|newValue| - suffixLength..]
    {
      suffixLength := suffixLength + 1;
    }

    d := Diff(prefixLength, |oldValue| - prefixLength - suffixLength,
              newValue[prefixLength..|newValue| - suffixLength]);

    forall start: nat, deleted: nat, inserted: Text |
      start + deleted <= |oldValue| && Splice(oldValue, start, deleted, inserted) == newValue
      ensures d.deleteLength + |d.insertText| <= deleted + |inserted|
    {
      SpliceKeeps(oldValue, newValue, start, deleted, inserted);
    }
    if oldValue == newValue {
      assert Splice(oldValue, 0, 0, []) == newValue;
    }
  }

  // The shared text the editor is bound to.
  class YText {
    var content: Text
    // How many transactions local edits have opened, each of which is sent to the server.
    var transactions: nat

    constructor (content: Text)
      ensures this.content == content && transactions == 0
    {
      this.content := content;
      transactions := 0;
    }

    method Delete(start: nat, length: nat)
      requires start + length <= |content|
      modifies this`content
      ensures content == Splice(old(content), start, length, [])
    {
      content := content[..start] + content[start + length..];
    }

    method Insert(start: nat, text: Text)
      requires start <= |content|
      modifies this`content
      ensures content == Splice(old(content), start, 0, text)
    {
      content := content[..start] + text + content[start..];
    }

    /** Typing leaves exactly the typed value, and opens a transaction just when it differs. */
    method SetLocalValue(next: Text)
      modifies this
      ensures content == next
      ensures transactions == old(transactions) + if old(content) == next then 0 else 1
    {
      var diff := ComputeTextDiff(content, next);
      if diff.deleteLength == 0 && diff.insertText == [] {
        return;
      }
      transactions := transactions + 1;
      if diff.deleteLength > 0 {
        Delete(diff.start, diff.deleteLength);
      }
      if diff.insertText != [] {
        Insert(diff.start, diff.insertText);
      }
    }
  }
}
