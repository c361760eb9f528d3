/** _RequireAttrsABCMeta.__call__: after an object is constructed, every
    attribute named in its class annotations must be set, with a value of
    the annotated type. The annotations are checked in order and the first
    one that fails raises. */
module RequireAttrs {

  /** The class annotations, in declaration order: attribute name and type. */
  type Annotations<Ty> = seq<(string, Ty)>

  /** A newly constructed object: its class annotations and the attributes
      that getattr finds on it. */
  datatype Instance<Ty, Val> = Instance(annotations: Annotations<Ty>, attrs: map<string, Val>)

  /** The outcome of the checks: MissingAttr is the AttributeError raised for
      an attribute that is not set, WrongType the TypeError raised for one
      whose value is not an instance of the annotated type. */
  datatype Verdict<Ty, Val> =
    | Ok
    | MissingAttr(name: string)
    | WrongType(name: string, expected: Ty, actual: Val)

  /** __call__ returns the object or raises. */
  datatype Result<T, E> = Success(value: T) | Failure(error: E)

  /** The annotation is met: the attribute is set and isinstance holds. */
  predicate Satisfied<Ty, Val>(a: (string, Ty), attrs: map<string, Val>, isInstance: (Val, Ty) -> bool)
  {
    a.0 in attrs && isInstance(attrs[a.0], a.1)
  }

  /** The error that one annotation raises when it is not met. */
  function Diagnose<Ty, Val>(a: (string, Ty), attrs: map<string, Val>): Verdict<Ty, Val>
  {
    if a.0 !in attrs then MissingAttr(a.0) else WrongType(a.0, a.1, attrs[a.0])
  }

  /** The verdict of walking the annotations in order and stopping at the
      first one that fails. */
  function Validate<Ty, Val>(annotations: Annotations<Ty>, attrs: map<string, Val>,
                             isInstance: (Val, Ty) -> bool): Verdict<Ty, Val>
  {
    if annotations == [] then Ok
    else if !Satisfied(annotations[0], attrs, isInstance) then Diagnose(annotations[0], attrs)
    else Validate(annotations[1..], attrs, isInstance)
  }

  /** Construction succeeds exactly when every annotation is met. */
  lemma {:induction false} ValidateOk<Ty, Val>(annotations: Annotations<Ty>, attrs: map<string, Val>,
                                               isInstance: (Val, Ty) -> bool)
    ensures Validate(annotations, attrs, isInstance) == Ok <==>
      forall i :: 0 <= i < |annotations| ==> Satisfied(annotations[i], attrs, isInstance)
  {
    if annotations != [] {
      ValidateOk(annotations[1..], attrs, isInstance);
      assert forall i :: 1 <= i < |annotations| ==> annotations[i] == annotations[1..][i - 1];
    }
  }

  /** When the annotations before position i are met and the one at i is
      not, the error is the one annotation i raises. */
  lemma {:induction false} ValidateAt<Ty, Val>(annotations: Annotations<Ty>, attrs: map<string, Val>,
                                               isInstance: (Val, Ty) -> bool, i: nat)
    requires i < |annotations|
    requires forall j :: 0 <= j < i ==> Satisfied(annotations[j], attrs, isInstance)
    requires !Satisfied(annotations[i], attrs, isInstance)
    ensures Validate(annotations, attrs, isInstance) == Diagnose(annotations[i], attrs)
  {
    if i > 0 {
      assert forall j :: 0 <= j < i - 1 ==> annotations[1..][j] == annotations[j + 1];
      ValidateAt(annotations[1..], attrs, isInstance, i - 1);
    }
  }

  /** Every failure comes from the first annotation that is not met: a
      missing attribute gives MissingAttr, a present one of the wrong type
      gives WrongType with the annotated type and the value found. */
  lemma {:induction false} ValidateFailure<Ty, Val>(annotations: Annotations<Ty>, attrs: map<string, Val>,
                                                    isInstance: (Val, Ty) -> bool)
    requires Validate(annotations, attrs, isInstance) != Ok
    ensures exists i :: (0 <= i < |annotations| &&
                         (forall j :: 0 <= j < i ==> Satisfied(annotations[j], attrs, isInstance)) &&
                         !Satisfied(annotations[i], attrs, isInstance) &&
                         Validate(annotations, attrs, isInstance) == Diagnose(annotations[i], attrs))
  {
    if Satisfied(annotations[0], attrs, isInstance) {
      ValidateFailure(annotations[1..], attrs, isInstance);
      var i :| 0 <= i < |annotations[1..]| &&
        (forall j :: 0 <= j < i ==> Satisfied(annotations[1..][j], attrs, isInstance)) &&
        !Satisfied(annotations[1..][i], attrs, isInstance) &&
        Validate(annotations[1..], attrs, isInstance) == Diagnose(annotations[1..][i], attrs);
      assert forall j :: 1 <= j < i + 1 ==> annotations[j] == annotations[1..][j - 1];
      assert annotations[i + 1] == annotations[1..][i];
    }
  }

  /** __call__: the object is returned when every annotation is met;
      otherwise the loop raises at the first annotation that is not. */
  method Call<Ty, Val>(obj: Instance<Ty, Val>, isInstance: (Val, Ty) -> bool)
    returns (r: Result<Instance<Ty, Val>, Verdict<Ty, Val>>)
    ensures var v := Validate(obj.annotations, obj.attrs, isInstance);
      r == if v == Ok then Success(obj) else Failure(v)
  {
    var annotations := obj.annotations;
    for i := 0 to |annotations|
      invariant Validate(annotations, obj.attrs, isInstance) == Validate(annotations[i..], obj.attrs, isInstance)
    {
      var (name, ty) := annotations[i];
      if name !in obj.attrs {
        return Failure(MissingAttr(name));
      }
      var x := obj.attrs[name];
      if !isInstance(x, ty) {
        return Failure(WrongType(name, ty, x));
      }
      assert annotations[i..][1..] == annotations[i + 1..];
    }
    return Success(obj);
  }
}
