/**
 * The expression trees the sieves build (System.Linq.Expressions as far as the sieves use it),
 * their evaluation, and the inspection of the property-selecting lambda a sieve is given.
 */
module Expressions {
  import opened Errors

  /** A CLR type as reflection reports it: Type.Name and Type.FullName (what String.Format prints). */
  datatype ClrType = ClrType(name: string, fullName: string)

  const Int32Type := ClrType("Int32", "System.Int32")

  /**
   * A public instance property of the filtered type T: its name, its declared type, and its
   * getter, which yields a value of the sieve's property type V.
   */
  datatype PropertyInfo<!T, V> = PropertyInfo(name: string, propertyType: ClrType, get: T -> V)

  /** A predicate over objects of type T, as an expression tree. */
  datatype Expr<!T, V> =
    | Constant(b: bool)                                      // PredicateBuilder.False / True
    | ConstantsEqual(lhs: bool, rhs: bool)                     // Expression.Equal of two constants
    | PropertyEquals(property: PropertyInfo<T, V>, value: V) // item.Property == constant
    | OrElse(left: Expr<T, V>, right: Expr<T, V>)            // PredicateBuilder.Or

  /** What the compiled expression returns for `item`. */
  function Eval<T, V(==)>(e: Expr<T, V>, item: T): bool {
    match e
    case Constant(b) => b
    case ConstantsEqual(l, r) => l == r
    case PropertyEquals(p, v) => p.get(item) == v
    case OrElse(l, r) => Eval(l, item) || Eval(r, item)
  }

  /** Expression.Compile(): the delegate that evaluates the tree. */
  function Compile<T(!new), V(==)>(e: Expr<T, V>): (r: T -> bool)
    ensures forall item: T :: r(item) == Eval(e, item)
  {
    (item: T) => Eval(e, item)
  }

  /**
   * The acceptable values turned into `item.Property == value` comparisons and folded with Or,
   * left to right, starting from PredicateBuilder.False.
   */
  function OrFold<T, V>(property: PropertyInfo<T, V>, values: seq<V>): Expr<T, V> {
    if values == [] then Constant(false)
    else OrElse(OrFold(property, values[..|values| - 1]), PropertyEquals(property, values[|values| - 1]))
  }

  /** The folded expression accepts an object exactly when its property value is one of the values. */
  lemma {:induction false} OrFoldAccepts<T, V>(property: PropertyInfo<T, V>, values: seq<V>, item: T)
    ensures Eval(OrFold(property, values), item) <==> property.get(item) in values
    decreases |values|
  {
    if values != [] {
      var init := values[..|values| - 1];
      OrFoldAccepts(property, init, item);
      assert values == init + [values[|values| - 1]];
    }
  }

  /** The folded expression does not depend on the order or repetition of the values. */
  lemma OrFoldIgnoresOrder<T, V>(property: PropertyInfo<T, V>, a: seq<V>, b: seq<V>, item: T)
    requires forall v | v in a :: v in b
    requires forall v | v in b :: v in a
    ensures Eval(OrFold(property, a), item) == Eval(OrFold(property, b), item)
  {
    OrFoldAccepts(property, a, item);
    OrFoldAccepts(property, b, item);
  }

  /** Where the property a lambda selects is declared, relative to the filtered type. */
  datatype ReflectedType = FilteredType | BaseOfFilteredType | UnrelatedType

  /** The body of a property-selecting lambda, as far as it is inspected. */
  datatype PropertyLambda<!T, V> =
    | NotMemberAccess                                                      // e.g. x => x.GetId()
    | FieldAccess                                                          // e.g. x => x.idField
    | PropertyAccess(property: PropertyInfo<T, V>, reflectedType: ReflectedType)

  /**
   * ExtractPropertyInfoFromLambda: the lambda must be a member access, the member a property,
   * and the property reflected from the filtered type or one of its base classes.
   */
  function ExtractPropertyInfo<T, V>(lambda: PropertyLambda<T, V>): (r: Result<PropertyInfo<T, V>>)
    ensures r.Ok? <==> lambda.PropertyAccess? && lambda.reflectedType != UnrelatedType
    ensures r.Ok? ==> r.value == lambda.property
    ensures lambda.NotMemberAccess? ==> r == Err(LambdaRefersToMethod)
    ensures lambda.FieldAccess? ==> r == Err(LambdaRefersToField)
    ensures lambda.PropertyAccess? && lambda.reflectedType == UnrelatedType ==> r == Err(LambdaPropertyFromOtherType)
  {
    match lambda
    case NotMemberAccess => Err(LambdaRefersToMethod)
    case FieldAccess => Err(LambdaRefersToField)
    case PropertyAccess(p, reflected) =>
      if reflected == UnrelatedType then Err(LambdaPropertyFromOtherType) else Ok(p)
  }
}
