/**
  The class attribute of the lazily loaded `<img>` (src/App.js:45-49): the base
  class `Image`, followed by the caller's `className` after exactly one space when a
  truthy one is given.
 */
module Image {
  import opened JsValue
  import JsString

  /** `Image${className ? className.padStart(className.length + 1) : ''}`. A truthy
      number or boolean has neither `length` nor `padStart`, so calling `padStart` throws. */
  function ClassName(className: Value): (r: Completion<string>)
    ensures !Truthy(className) ==> r == Normal("Image")
    ensures className.Str? && |className.s| > 0 ==> r == Normal("Image " + className.s)
    ensures (className.Num? || className.Bool?) && Truthy(className) ==> r == Throw
    ensures r.Normal? ==> |r.value| >= 5 && r.value[..5] == "Image"
  {
    if !Truthy(className) then Normal("Image")
    else
      match className
      case Str(s) =>
        var padded := JsString.PadStart(s, |s| + 1);
        assert padded == " " + s;
        assert "Image" + padded == "Image " + s;
        Normal("Image" + padded)
      case _ => Throw
  }

  /** The ASCII whitespace that separates the tokens of an HTML `class` attribute:
      tab, line feed, form feed, carriage return and space. */
  predicate IsClassSeparator(c: char) {
    c == '\t' || c == '\n' || c == '\U{C}' || c == '\r' || c == ' '
  }

  /** A `className` that is a single class name (no separator) yields exactly two class
      names, `Image` and that one: the only separator is the space inserted at index 5. */
  lemma ClassNameOneSeparator(name: string)
    requires |name| > 0 && forall i :: 0 <= i < |name| ==> !IsClassSeparator(name[i])
    ensures ClassName(Str(name)).Normal?
    ensures var c := ClassName(Str(name)).value;
            forall i :: 0 <= i < |c| ==> (IsClassSeparator(c[i]) <==> i == 5)
  {
    var c := ClassName(Str(name)).value;
    assert c == "Image " + name;
    assert forall i :: 6 <= i < |c| ==> c[i] == name[i - 6];
  }
}
