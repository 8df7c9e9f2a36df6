/** The applicability decorators: a decorated function is called only when the class name of its
    first argument, compared without regard to case, is among (implemented_for) or not among
    (not_implemented_for) the listed type names; otherwise it raises NotImplementedError. */
module Decorators {
  import opened Wrappers

  /** str.lower() on one character of a class name: ASCII capitals become small letters. */
  function LowerChar(c: char): (d: char)
    ensures 'A' <= c <= 'Z' ==> d as int == c as int + 32
    ensures !('A' <= c <= 'Z') ==> d == c
  {
    if 'A' <= c <= 'Z' then (c as int + 32) as char else c
  }

  /** str.lower() on a class or type name. */
  function Lower(s: string): (r: string)
    ensures |r| == |s| && forall i :: 0 <= i < |s| ==> r[i] == LowerChar(s[i])
  {
    seq(|s|, i requires 0 <= i < |s| => LowerChar(s[i]))
  }

  /** Lowering twice is lowering once, and no capital survives it. */
  lemma LowerIdempotent(s: string)
    ensures Lower(Lower(s)) == Lower(s)
    ensures forall i :: 0 <= i < |s| ==> !('A' <= Lower(s)[i] <= 'Z')
  {
    forall i | 0 <= i < |s|
      ensures LowerChar(LowerChar(s[i])) == LowerChar(s[i])
    {
      if 'A' <= s[i] <= 'Z' {
        assert 'a' <= LowerChar(s[i]) <= 'z';
      }
    }
  }

  /** A listed type name equals the item's class name once both are lowered. */
  predicate Listed(typeNames: seq<string>, itemType: string) {
    exists k :: 0 <= k < |typeNames| && Lower(typeNames[k]) == Lower(itemType)
  }

  /** The comparison ignores case on both sides: lowering the class name or any listed name does
      not change whether it is listed. */
  lemma ListedIgnoresCase(typeNames: seq<string>, itemType: string)
    ensures Listed(typeNames, itemType) <==> Listed(typeNames, Lower(itemType))
    ensures Listed(typeNames, itemType) <==> Listed(seq(|typeNames|, k requires 0 <= k < |typeNames| => Lower(typeNames[k])), itemType)
  {
    LowerIdempotent(itemType);
    var lowered := seq(|typeNames|, k requires 0 <= k < |typeNames| => Lower(typeNames[k]));
    if Listed(typeNames, itemType) {
      var k :| 0 <= k < |typeNames| && Lower(typeNames[k]) == Lower(itemType);
      LowerIdempotent(typeNames[k]);
      assert Lower(lowered[k]) == Lower(itemType);
    }
    if Listed(lowered, itemType) {
      var k :| 0 <= k < |lowered| && Lower(lowered[k]) == Lower(itemType);
      LowerIdempotent(typeNames[k]);
      assert Lower(typeNames[k]) == Lower(itemType);
    }
  }

  /** The loop of a wrapper: whether some listed name, lowered, equals the lowered class name. */
  method Matches(typeNames: seq<string>, itemType: string) returns (found: bool)
    ensures found <==> Listed(typeNames, itemType)
  {
    var lowered := Lower(itemType);
    found := false;
    for k := 0 to |typeNames|
      invariant found <==> exists j :: 0 <= j < k && Lower(typeNames[j]) == lowered
    {
      if Lower(typeNames[k]) == lowered {
        found := true;
      }
    }
  }

  /** implemented_for(*typeNames) applied to f and called on args, where className gives the class
      name of an argument: an empty argument list raises IndexError; f runs exactly when the
      first argument's class is listed, and its result is returned unaltered. */
  method ImplementedFor<A, R>(typeNames: seq<string>, className: A -> string, f: seq<A> -> R, args: seq<A>)
    returns (r: Result<R>)
    ensures args == [] ==> r == Failure(IndexError)
    ensures args != [] && Listed(typeNames, className(args[0])) ==> r == Success(f(args))
    ensures args != [] && !Listed(typeNames, className(args[0])) ==> r == Failure(NotImplementedError)
  {
    if args == [] {
      return Failure(IndexError);
    }
    var matched := Matches(typeNames, className(args[0]));
    if !matched {
      return Failure(NotImplementedError);
    }
    return Success(f(args));
  }

  /** not_implemented_for(*typeNames): the mirror image, f runs exactly when the first argument's
      class is not listed. */
  method NotImplementedFor<A, R>(typeNames: seq<string>, className: A -> string, f: seq<A> -> R, args: seq<A>)
    returns (r: Result<R>)
    ensures args == [] ==> r == Failure(IndexError)
    ensures args != [] && !Listed(typeNames, className(args[0])) ==> r == Success(f(args))
    ensures args != [] && Listed(typeNames, className(args[0])) ==> r == Failure(NotImplementedError)
  {
    if args == [] {
      return Failure(IndexError);
    }
    var found := Matches(typeNames, className(args[0]));
    var matched := !found;
    if !matched {
      return Failure(NotImplementedError);
    }
    return Success(f(args));
  }

  /** With no type names, implemented_for refuses every class and not_implemented_for accepts
      every class; a listed name matches its own class whatever the case of either. */
  lemma ListedExamples(itemType: string)
    ensures !Listed([], itemType)
    ensures Listed(["BinaryEncoding"], "binaryencoding")
    ensures Listed([itemType], Lower(itemType))
  {
    assert Lower(["BinaryEncoding"][0]) == Lower("binaryencoding");
    LowerIdempotent(itemType);
    assert [itemType][0] == itemType;
  }
}
