/** How the model represents the things a Python call can do besides
    returning: raising an exception, and touching scratch files. */
module Effects {

  datatype Option<+T> = None | Some(value: T)

  /** The result of a call into an opaque library: it returns a value or it
      raises (any exception; the callers here catch all of them alike). */
  datatype Outcome<+T> = Returned(value: T) | Raised

  /** File-system actions on scratch files and on the wave handle opened on
      one, in the order they happen. */
  datatype FsOp =
    | Create(name: string)   // tempfile.NamedTemporaryFile(delete=False)
    | Remove(name: string)   // os.remove
    | Open(name: string)     // wave.open(name, "rb")
    | Close(name: string)    // wf.close()

  /** Every scratch file created is removed later on. */
  predicate LeavesNoScratch(ops: seq<FsOp>) {
    forall i :: 0 <= i < |ops| && ops[i].Create? ==>
      exists j :: i < j < |ops| && ops[j] == Remove(ops[i].name)
  }

  /** Every handle opened is closed later on. */
  predicate ClosesHandles(ops: seq<FsOp>) {
    forall i :: 0 <= i < |ops| && ops[i].Open? ==>
      exists j :: i < j < |ops| && ops[j] == Close(ops[i].name)
  }

  /** Two clean traces run one after the other form a clean trace. */
  lemma CleanTracesCompose(a: seq<FsOp>, b: seq<FsOp>)
    requires LeavesNoScratch(a) && LeavesNoScratch(b)
    ensures LeavesNoScratch(a + b)
  {
    var ab := a + b;
    forall i | 0 <= i < |ab| && ab[i].Create?
      ensures exists j :: i < j < |ab| && ab[j] == Remove(ab[i].name)
    {
      if i < |a| {
        var j :| i < j < |a| && a[j] == Remove(a[i].name);
        assert ab[j] == a[j];
      } else {
        assert ab[i] == b[i - |a|];
        var j :| i - |a| < j < |b| && b[j] == Remove(b[i - |a|].name);
        assert ab[j + |a|] == b[j];
      }
    }
  }

  /** Two traces that each close their handles still do so run in sequence. */
  lemma ClosingTracesCompose(a: seq<FsOp>, b: seq<FsOp>)
    requires ClosesHandles(a) && ClosesHandles(b)
    ensures ClosesHandles(a + b)
  {
    var ab := a + b;
    forall i | 0 <= i < |ab| && ab[i].Open?
      ensures exists j :: i < j < |ab| && ab[j] == Close(ab[i].name)
    {
      if i < |a| {
        var j :| i < j < |a| && a[j] == Close(a[i].name);
        assert ab[j] == a[j];
      } else {
        assert ab[i] == b[i - |a|];
        var j :| i - |a| < j < |b| && b[j] == Close(b[i - |a|].name);
        assert ab[j + |a|] == b[j];
      }
    }
  }
}
