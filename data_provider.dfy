/** The dataset and transformer abstractions of ailab/data/data_provider.py. A transformer
    maps one sample to another; ComposeTransforms feeds a sample through a list of them in
    order; a TransformedDataset presents another dataset with a transformer applied to each
    item. The base Dataset and Transformer raise NotImplementedError from every method.

    A Python exception is the Err outcome. Samples are of an arbitrary type T. */
module DataProvider {

  datatype Error =
    | NotImplemented            // NotImplementedError of the abstract base classes
    | IndexOutOfRange           // an index outside 0 .. len - 1
    | NoAttribute(name: string) // AttributeError: the object lacks the method

  datatype Result<T> = Ok(value: T) | Err(error: Error)

  /** A transformer: the abstract base class, a concrete callable, or ComposeTransforms
      over a list of transformers. */
  datatype Transformer<!T> =
    | AbstractTransformer
    | Fn(f: T -> T)
    | Compose(transforms: seq<Transformer<T>>)

  /** A dataset: the abstract base class, a concrete dataset over a list of samples with a
      version number, or a TransformedDataset wrapping another dataset. */
  datatype Dataset<!T> =
    | AbstractDataset
    | Samples(items: seq<T>, version: int)
    | Transformed(dataset: Dataset<T>, transformer: Transformer<T>)

  // ---------------------------------------------------------------------------------
  // Transformers

  /** transformer(args) */
  function Apply<T>(t: Transformer<T>, x: T): Result<T>
    decreases t
  {
    match t
    case AbstractTransformer => Err(NotImplemented)
    case Fn(f) => Ok(f(x))
    case Compose(ts) => ApplyAll(ts, x)
  }

  /** Feed x through ts, each output the next input; the first exception stops the chain. */
  function ApplyAll<T>(ts: seq<Transformer<T>>, x: T): Result<T>
    decreases ts, 1
  {
    if ts == [] then Ok(x)
    else Then(Apply(ts[0], x), ts[1..])
  }

  /** Continue the chain ts after an outcome r. */
  function Then<T>(r: Result<T>, ts: seq<Transformer<T>>): Result<T>
    decreases ts, 2
  {
    match r
    case Err(e) => Err(e)
    case Ok(y) => ApplyAll(ts, y)
  }

  /** ComposeTransforms.__call__ (and the call of any other transformer): the loop rebinds
      args to each transform's output in list order. */
  method Call<T>(t: Transformer<T>, x: T) returns (r: Result<T>)
    ensures r == Apply(t, x)
    decreases t
  {
    match t
    case AbstractTransformer =>
      r := Err(NotImplemented);
    case Fn(f) =>
      r := Ok(f(x));
    case Compose(ts) =>
      var args := x;
      for i := 0 to |ts|
        invariant ApplyAll(ts, x) == ApplyAll(ts[i..], args)
      {
        assert ts[i..][0] == ts[i] && ts[i..][1..] == ts[i + 1..];
        var step := Call(ts[i], args);
        if step.Err? {
          return step;
        }
        args := step.value;
      }
      r := Ok(args);
  }

  /** The chain over a + b is the chain over a continued with b. */
  lemma {:induction false} ApplyAllAppend<T>(a: seq<Transformer<T>>, b: seq<Transformer<T>>, x: T)
    ensures ApplyAll(a + b, x) == Then(ApplyAll(a, x), b)
    decreases |a|
  {
    if a == [] {
      assert a + b == b;
      match ApplyAll(b, x) {
        case Ok(y) =>
        case Err(e) =>
      }
    } else {
      assert (a + b)[0] == a[0] && (a + b)[1..] == a[1..] + b;
      match Apply(a[0], x) {
        case Err(e) =>
        case Ok(y) =>
          ApplyAllAppend(a[1..], b, y);
      }
    }
  }

  /** An empty ComposeTransforms returns its argument unchanged, and a one-element one
      behaves as its element. */
  lemma ComposeUnits<T>(t: Transformer<T>, x: T)
    ensures Apply(Compose([]), x) == Ok(x)
    ensures Apply(Compose([t]), x) == Apply(t, x)
  {
    assert [t][0] == t && [t][1..] == [];
    assert ApplyAll([t], x) == Then(Apply(t, x), []);
    match Apply(t, x) {
      case Ok(y) =>
        assert Then(Ok(y), []) == ApplyAll([], y) == Ok(y);
      case Err(e) =>
    }
  }

  /** The callables fs as concrete transformers. */
  function Fns<T>(fs: seq<T -> T>): (ts: seq<Transformer<T>>)
    ensures |ts| == |fs|
    ensures forall i :: 0 <= i < |fs| ==> ts[i] == Fn(fs[i])
  {
    seq(|fs|, i requires 0 <= i < |fs| => Fn(fs[i]))
  }

  /** fs[n-1](...fs[1](fs[0](x))...): the first callable innermost. */
  function Pipeline<T>(fs: seq<T -> T>, x: T): T
  {
    if fs == [] then x else fs[|fs| - 1](Pipeline(fs[..|fs| - 1], x))
  }

  /** ComposeTransforms over callables applies them in list order. */
  lemma {:induction false} ComposeInOrder<T>(fs: seq<T -> T>, x: T)
    ensures Apply(Compose(Fns(fs)), x) == Ok(Pipeline(fs, x))
    decreases |fs|
  {
    if fs != [] {
      var init := fs[..|fs| - 1];
      var last := fs[|fs| - 1];
      assert Fns(fs) == Fns(init) + [Fn(last)];
      ApplyAllAppend(Fns(init), [Fn(last)], x);
      ComposeInOrder(init, x);
      var y := Pipeline(init, x);
      assert [Fn(last)][0] == Fn(last) && [Fn(last)][1..] == [];
      calc {
        ApplyAll(Fns(fs), x);
        Then(Ok(y), [Fn(last)]);
        ApplyAll([Fn(last)], y);
        Then(Ok(last(y)), []);
        Ok(last(y));
      }
    }
  }

  lemma ComposeOrderExample()
    ensures Apply(Compose(Fns([(n: int) => n + 1, (n: int) => 2 * n])), 3) == Ok(8)
    ensures Apply(Compose(Fns([(n: int) => 2 * n, (n: int) => n + 1])), 3) == Ok(7)
  {
    ComposeInOrder([(n: int) => n + 1, (n: int) => 2 * n], 3);
    ComposeInOrder([(n: int) => 2 * n, (n: int) => n + 1], 3);
  }

  /** A transformer made only of callables and the abstract base. */
  predicate Flat<T>(ts: seq<Transformer<T>>)
  {
    forall i :: 0 <= i < |ts| ==> !ts[i].Compose?
  }

  /** An abstract transformer anywhere in a flat chain makes the call raise. */
  lemma {:induction false} AbstractInChainRaises<T>(ts: seq<Transformer<T>>, x: T)
    requires Flat(ts)
    requires exists i :: 0 <= i < |ts| && ts[i].AbstractTransformer?
    ensures Apply(Compose(ts), x) == Err(NotImplemented)
    decreases |ts|
  {
    if ts[0].AbstractTransformer? {
      assert ApplyAll(ts, x) == Then(Err(NotImplemented), ts[1..]);
    } else {
      assert ApplyAll(ts, x) == Then(Ok(ts[0].f(x)), ts[1..]);
      var i :| 0 <= i < |ts| && ts[i].AbstractTransformer?;
      assert ts[1..][i - 1] == ts[i];
      AbstractInChainRaises(ts[1..], ts[0].f(x));
    }
  }

  // ---------------------------------------------------------------------------------
  // Datasets

  /** len(dataset) */
  function Len<T>(d: Dataset<T>): Result<nat>
  {
    match d
    case AbstractDataset => Err(NotImplemented)
    case Samples(items, _) => Ok(|items|)
    case Transformed(inner, _) => Len(inner)
  }

  /** dataset[index] */
  function GetItem<T>(d: Dataset<T>, index: int): Result<T>
  {
    match d
    case AbstractDataset => Err(NotImplemented)
    case Samples(items, _) =>
      if 0 <= index < |items| then Ok(items[index]) else Err(IndexOutOfRange)
    case Transformed(inner, t) =>
      match GetItem(inner, index)
      case Err(e) => Err(e)
      case Ok(v) => Apply(t, v)
  }

  /** dataset.version(); TransformedDataset does not derive from Dataset and has none. */
  function Version<T>(d: Dataset<T>): Result<int>
  {
    match d
    case AbstractDataset => Err(NotImplemented)
    case Samples(_, v) => Ok(v)
    case Transformed(_, _) => Err(NoAttribute("version"))
  }

  /** Every method of the abstract bases raises NotImplementedError, and wrapping an
      abstract dataset does not hide that. */
  lemma AbstractBasesRaise<T>(x: T, index: int, t: Transformer<T>)
    ensures Apply(AbstractTransformer, x) == Err(NotImplemented)
    ensures Len(Dataset<T>.AbstractDataset) == Err(NotImplemented)
    ensures GetItem(Dataset<T>.AbstractDataset, index) == Err(NotImplemented)
    ensures Version(Dataset<T>.AbstractDataset) == Err(NotImplemented)
    ensures Len(Transformed(AbstractDataset, t)) == Err(NotImplemented)
    ensures GetItem(Transformed(AbstractDataset, t), index) == Err(NotImplemented)
  {
  }

  /** A transformer that cannot raise: no abstract transformer at any depth. */
  predicate Total<T>(t: Transformer<T>)
    decreases t
  {
    match t
    case AbstractTransformer => false
    case Fn(_) => true
    case Compose(ts) => forall i :: 0 <= i < |ts| ==> Total(ts[i])
  }

  /** A total transformer always returns a sample. */
  lemma {:induction false} TotalApplies<T>(t: Transformer<T>, x: T)
    requires Total(t)
    ensures Apply(t, x).Ok?
    decreases t, 0
  {
    match t
    case Fn(_) =>
    case Compose(ts) =>
      TotalChain(ts, x);
  }

  /** A chain of total transformers always returns a sample. */
  lemma {:induction false} TotalChain<T>(ts: seq<Transformer<T>>, x: T)
    requires forall i :: 0 <= i < |ts| ==> Total(ts[i])
    ensures ApplyAll(ts, x).Ok?
    decreases ts, 1
  {
    if ts != [] {
      TotalApplies(ts[0], x);
      var y := Apply(ts[0], x).value;
      assert ApplyAll(ts, x) == ApplyAll(ts[1..], y);
      TotalChain(ts[1..], y);
    }
  }

  /** A dataset built from samples by wrappers whose transformers cannot raise. */
  predicate Concrete<T>(d: Dataset<T>)
  {
    match d
    case AbstractDataset => false
    case Samples(_, _) => true
    case Transformed(inner, t) => Concrete(inner) && Total(t)
  }

  /** The samples at the bottom of a wrapper stack. */
  function Base<T>(d: Dataset<T>): seq<T>
    requires Concrete(d)
  {
    match d
    case Samples(items, _) => items
    case Transformed(inner, _) => Base(inner)
  }

  /** A TransformedDataset has the length of what it wraps, whatever the dataset and the
      transformer; a concrete stack has the length of its samples. */
  lemma {:induction false} TransformedLength<T>(d: Dataset<T>, t: Transformer<T>)
    ensures Len(Transformed(d, t)) == Len(d)
    ensures Concrete(d) ==> Len(d) == Ok(|Base(d)|)
  {
    match d
    case AbstractDataset =>
    case Samples(_, _) =>
    case Transformed(inner, t') =>
      TransformedLength(inner, t');
  }

  /** Item i of a TransformedDataset is its transformer applied to item i of the wrapped
      dataset, whatever the dataset and the transformer, and an error of the wrapped
      dataset passes through; over a concrete stack with a transformer that cannot raise,
      the item exists exactly for 0 <= i < len. */
  lemma {:induction false} TransformedItem<T>(d: Dataset<T>, t: Transformer<T>, index: int)
    ensures GetItem(d, index).Ok? ==> GetItem(Transformed(d, t), index) == Apply(t, GetItem(d, index).value)
    ensures GetItem(d, index).Err? ==> GetItem(Transformed(d, t), index) == GetItem(d, index)
    ensures Concrete(d) ==> (GetItem(d, index).Ok? <==> 0 <= index < |Base(d)|)
    ensures Concrete(d) && Total(t) ==> (GetItem(Transformed(d, t), index).Ok? <==> 0 <= index < |Base(d)|)
  {
    match d {
      case AbstractDataset =>
      case Samples(_, _) =>
      case Transformed(inner, t') =>
        TransformedItem(inner, t', index);
        if GetItem(inner, index).Ok? && Total(t') {
          TotalApplies(t', GetItem(inner, index).value);
        }
    }
    if Concrete(d) && Total(t) && GetItem(d, index).Ok? {
      TotalApplies(t, GetItem(d, index).value);
    }
  }

  /** Two stacked wrappers behave as one wrapper with the composed transformer. */
  lemma StackedIsComposed<T>(d: Dataset<T>, t1: Transformer<T>, t2: Transformer<T>, index: int)
    ensures GetItem(Transformed(Transformed(d, t1), t2), index)
         == GetItem(Transformed(d, Compose([t1, t2])), index)
    ensures Len(Transformed(Transformed(d, t1), t2)) == Len(Transformed(d, Compose([t1, t2])))
  {
    match GetItem(d, index) {
      case Err(e) =>
      case Ok(v) =>
        ApplyAllAppend([t1], [t2], v);
        assert [t1] + [t2] == [t1, t2];
        ComposeUnits(t1, v);
        match Apply(t1, v) {
          case Err(e) =>
          case Ok(w) =>
            ComposeUnits(t2, w);
        }
    }
  }

  /** A TransformedDataset has no version method. */
  lemma TransformedHasNoVersion<T>(d: Dataset<T>, t: Transformer<T>)
    ensures Version(Transformed(d, t)).Err?
    ensures Version(d).Ok? ==> Version(Transformed(d, t)) != Version(d)
  {
  }
}
