/** Values shared by every stage of the extraction pipeline: raster images,
    the exceptions a foreign library may raise, and the sequence helpers the
    stages are specified with. */
module Common {

  type Bytes = seq<bv8>

  /** An in-memory bitmap, as produced by the PDF renderer or the image decoder. */
  datatype Image = Image(width: nat, height: nat, pixels: Bytes)

  /** A Python exception, reduced to the text `str(e)` gives for it. */
  datatype Fault = Fault(message: string)

  /** The outcome of a call that may raise. */
  datatype Result<T> = Ok(value: T) | Err(fault: Fault)

  datatype Option<T> = None | Some(value: T)

  /** Applies `f` to every element in order and stops at the first call that
      raises, exactly as a Python `for` loop does when its body throws.
      Defined on the prefix so that a loop can keep it as its invariant. */
  function Traverse<A, B>(xs: seq<A>, f: A -> Result<B>): Result<seq<B>>
    decreases |xs|
  {
    if |xs| == 0 then Ok([])
    else
      match Traverse(xs[..|xs| - 1], f)
      case Err(e) => Err(e)
      case Ok(ys) =>
        match f(xs[|xs| - 1])
        case Err(e) => Err(e)
        case Ok(y) => Ok(ys + [y])
  }

  /** Traverse succeeds exactly when every call succeeds, and then it holds one
      value per element, each at its element's index. */
  lemma {:induction false} TraverseOk<A, B>(xs: seq<A>, f: A -> Result<B>)
    ensures Traverse(xs, f).Ok? <==> (forall i :: 0 <= i < |xs| ==> f(xs[i]).Ok?)
    ensures Traverse(xs, f).Ok? ==>
              |Traverse(xs, f).value| == |xs| &&
              forall i :: 0 <= i < |xs| ==> Traverse(xs, f).value[i] == f(xs[i]).value
    decreases |xs|
  {
    if |xs| > 0 {
      var init := xs[..|xs| - 1];
      TraverseOk(init, f);
      assert forall i :: 0 <= i < |init| ==> init[i] == xs[i];
    }
  }

  /** When Traverse fails, it reports the fault of the first element whose
      call raised; every earlier call succeeded. */
  lemma {:induction false} TraverseFirstFault<A, B>(xs: seq<A>, f: A -> Result<B>)
    requires Traverse(xs, f).Err?
    ensures exists k :: 0 <= k < |xs| && f(xs[k]).Err? &&
              Traverse(xs, f).fault == f(xs[k]).fault &&
              forall j :: 0 <= j < k ==> f(xs[j]).Ok?
    decreases |xs|
  {
    var init := xs[..|xs| - 1];
    assert forall i :: 0 <= i < |init| ==> init[i] == xs[i];
    if Traverse(init, f).Err? {
      TraverseFirstFault(init, f);
      var k :| 0 <= k < |init| && f(init[k]).Err? &&
               Traverse(init, f).fault == f(init[k]).fault &&
               forall j :: 0 <= j < k ==> f(init[j]).Ok?;
      assert f(xs[k]).Err?;
    } else {
      TraverseOk(init, f);
      assert f(xs[|xs| - 1]).Err?;
    }
  }

  /** Once a prefix has failed, the rest of the sequence is never looked at. */
  lemma {:induction false} TraversePrefixErr<A, B>(xs: seq<A>, k: nat, f: A -> Result<B>)
    requires k <= |xs|
    requires Traverse(xs[..k], f).Err?
    ensures Traverse(xs, f) == Traverse(xs[..k], f)
    decreases |xs| - k
  {
    if k < |xs| {
      assert xs[..k + 1][..k] == xs[..k];
      TraversePrefixErr(xs, k + 1, f);
    } else {
      assert xs[..k] == xs;
    }
  }

  /** The sum of the lengths of the strings. */
  function TotalLength(ss: seq<string>): nat
  {
    if |ss| == 0 then 0 else |ss[0]| + TotalLength(ss[1..])
  }

  /** Python's `s.split(sep)` for a one-character separator: the pieces
      between separators, empty pieces included, so "" gives [""].  It is the
      inverse against which the joins of the pipeline are stated. */
  function Split(s: string, sep: char): (r: seq<string>)
    ensures |r| >= 1
    ensures sep !in r[0]
    decreases |s|
  {
    if |s| == 0 then [""]
    else
      var rest := Split(s[1..], sep);
      if s[0] == sep then [""] + rest
      else [[s[0]] + rest[0]] + rest[1..]
  }

  lemma {:induction false} SplitWithoutSeparator(a: string, sep: char)
    requires sep !in a
    ensures Split(a, sep) == [a]
    decreases |a|
  {
    if |a| > 0 {
      SplitWithoutSeparator(a[1..], sep);
      assert [a[0]] + a[1..] == a;
    }
  }

  /** Splitting a piece free of the separator, the separator and a tail gives
      the piece followed by the pieces of the tail. */
  lemma {:induction false} SplitAfterPiece(a: string, sep: char, b: string)
    requires sep !in a
    ensures Split(a + [sep] + b, sep) == [a] + Split(b, sep)
    decreases |a|
  {
    var s := a + [sep] + b;
    if |a| == 0 {
      assert s[1..] == b;
    } else {
      SplitAfterPiece(a[1..], sep, b);
      assert s[1..] == a[1..] + [sep] + b;
      assert [a[0]] + a[1..] == a;
    }
  }
}
