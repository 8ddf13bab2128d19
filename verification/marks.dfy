/**
 * The mark table: numbered marks bound to a window class, and the
 * first-wins lookup find_wmclass_for_mark (the same search in winleap.c
 * and atsw_manual.c).
 */
module MarkTable {
  import opened Common

  const MaxMarks: nat := 100

  /** One `number=class` line as stored (MarkMapping in the sources). */
  datatype Mark = Mark(number: int, wmClass: string)

  /** find_wmclass_for_mark: the class of the first entry carrying the
      number, or none. */
  function FindClassForMark(marks: seq<Mark>, n: int): (r: Option<string>)
    ensures r.None? <==> forall i :: 0 <= i < |marks| ==> marks[i].number != n
  {
    if |marks| == 0 then None
    else if marks[0].number == n then Some(marks[0].wmClass)
    else
      var r := FindClassForMark(marks[1..], n);
      assert forall i :: 1 <= i < |marks| ==> marks[i] == marks[1..][i - 1];
      r
  }

  /** The first entry carrying the number decides the class. */
  lemma {:induction false} FirstMarkDecides(marks: seq<Mark>, n: int, i: nat)
    requires i < |marks| && marks[i].number == n
    requires forall j :: 0 <= j < i ==> marks[j].number != n
    ensures FindClassForMark(marks, n) == Some(marks[i].wmClass)
  {
    if i > 0 {
      assert marks[0].number != n;
      assert marks[1..][i - 1] == marks[i];
      forall j | 0 <= j < i - 1 ensures marks[1..][j].number != n {
        assert marks[1..][j] == marks[j + 1];
      }
      FirstMarkDecides(marks[1..], n, i - 1);
    }
  }

  /** First wins: marks stored after a matching one never change the answer. */
  lemma {:induction false} LaterMarksIgnored(marks: seq<Mark>, more: seq<Mark>, n: int)
    requires FindClassForMark(marks, n).Some?
    ensures FindClassForMark(marks + more, n) == FindClassForMark(marks, n)
  {
    if marks[0].number != n {
      assert (marks + more)[1..] == marks[1..] + more;
      LaterMarksIgnored(marks[1..], more, n);
    }
  }
}
