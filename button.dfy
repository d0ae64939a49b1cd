/**
 * The `Button` component (components/ui/Button.jsx): from its props to the
 * `className` string and the `disabled`, `aria-disabled` and `aria-busy` flags.
 */
module ButtonStyles {
  import opened Text
  import opened Optional
  import opened JsObjects

  /** The props that shape the button; a missing prop is `None` and takes its default. */
  datatype ButtonProps = ButtonProps(
    variant: Option<string>,
    size: Option<string>,
    disabled: Option<bool>,
    loading: Option<bool>,
    fullWidth: Option<bool>,
    className: Option<string>,
    buttonType: Option<string>)

  /** A button with every prop left to its default. */
  const NoProps := ButtonProps(None, None, None, None, None, None, None)

  const Base := "inline-flex items-center justify-center rounded-md font-medium transition-colors focus:outline-none focus:ring-2 focus:ring-offset-2 disabled:opacity-50 disabled:cursor-not-allowed shadow-sm"

  const Sizes: map<string, string> := map[
    "sm" := "px-3 py-1.5 text-sm",
    "md" := "px-4 py-2 text-sm",
    "lg" := "px-5 py-2.5 text-base"
  ]

  const Variants: map<string, string> := map[
    "primary" := "bg-blue-600 text-white hover:bg-blue-700 focus:ring-blue-500",
    "secondary" := "bg-amber-500 text-white hover:bg-amber-600 focus:ring-amber-500",
    "outline" := "border border-blue-600 text-blue-700 bg-transparent hover:bg-blue-50 focus:ring-blue-500"
  ]

  /** `table[key] || fallback` where only the table's own entries are considered. */
  function OwnOr(table: map<string, string>, key: string, fallback: string): string
  {
    match GetOwn(table, key)
    case Own(v) => if v != "" then v else fallback
    case _ => fallback
  }

  /** `sizes[size] || sizes.md`. */
  function SizeClasses(size: string): string
  {
    OwnOr(Sizes, size, Sizes["md"])
  }

  /** `variants[variant] || variants.primary`. */
  function VariantClasses(variant: string): string
  {
    OwnOr(Variants, variant, Variants["primary"])
  }

  function WidthClass(fullWidth: bool): string
  {
    if fullWidth then "w-full" else ""
  }

  /** `parts.filter(Boolean)` on strings: drop the empty ones, keep the others in order. */
  function DropEmpty(parts: seq<string>): (r: seq<string>)
    ensures forall i :: 0 <= i < |r| ==> r[i] != ""
    ensures |r| <= |parts|
  {
    if |parts| == 0 then []
    else (if parts[0] == "" then [] else [parts[0]]) + DropEmpty(parts[1..])
  }

  /** The five parts of the class string, before empty ones are dropped. */
  function ClassParts(p: ButtonProps): seq<string>
  {
    [Base, SizeClasses(p.size.GetOr("md")), VariantClasses(p.variant.GetOr("primary")),
     WidthClass(p.fullWidth.GetOr(false)), p.className.GetOr("")]
  }

  /** `composed`: the non-empty parts joined by single spaces. */
  function ClassName(p: ButtonProps): string
  {
    Join(DropEmpty(ClassParts(p)), " ")
  }

  /** The known sizes and variants find their own classes; any other value falls back to `md` and `primary`. */
  lemma FallbackSpec(size: string, variant: string)
    ensures size in Sizes ==> SizeClasses(size) == Sizes[size]
    ensures size !in Sizes ==> SizeClasses(size) == Sizes["md"]
    ensures variant in Variants ==> VariantClasses(variant) == Variants[variant]
    ensures variant !in Variants ==> VariantClasses(variant) == Variants["primary"]
    ensures SizeClasses(size) != "" && VariantClasses(variant) != ""
  {
    assert forall k :: k in Sizes ==> Sizes[k] != "";
    assert forall k :: k in Variants ==> Variants[k] != "";
  }

  lemma {:induction false} DropEmptyAppend(a: seq<string>, b: seq<string>)
    ensures DropEmpty(a + b) == DropEmpty(a) + DropEmpty(b)
  {
    if |a| > 0 {
      DropEmptyAppend(a[1..], b);
      assert (a + b)[1..] == a[1..] + b;
    } else {
      assert a + b == b;
    }
  }

  lemma {:induction false} DropEmptyKeeps(xs: seq<string>)
    requires forall i :: 0 <= i < |xs| ==> xs[i] != ""
    ensures DropEmpty(xs) == xs
  {
    if |xs| > 0 {
      DropEmptyKeeps(xs[1..]);
      assert xs == [xs[0]] + xs[1..];
    }
  }

  lemma JoinThree(a: string, b: string, c: string)
    ensures Join([a, b, c], " ") == a + " " + b + " " + c
  {
    assert [a, b, c][1..] == [b, c];
    assert [b, c][1..] == [c];
    assert Join([b, c], " ") == b + " " + c;
    assert a + " " + (b + " " + c) == a + " " + b + " " + c;
  }

  /** Of the five parts, the first three always stay; the width and extra classes stay when not empty. */
  lemma DropEmptyFive(a: string, b: string, c: string, w: bool, cls: string)
    requires a != "" && b != "" && c != ""
    ensures DropEmpty([a, b, c, WidthClass(w), cls])
         == [a, b, c] + (if w then ["w-full"] else []) + (if cls != "" then [cls] else [])
  {
    var three := [a, b, c];
    assert [a, b, c, WidthClass(w), cls] == three + [WidthClass(w)] + [cls];
    DropEmptyAppend(three + [WidthClass(w)], [cls]);
    DropEmptyAppend(three, [WidthClass(w)]);
    DropEmptyKeeps(three);
    assert [WidthClass(w)][1..] == [];
    assert [cls][1..] == [];
  }

  /**
   * Five parts of which the first three are never empty, filtered and joined:
   * the three, then the width class when set, then the extra classes when not empty.
   */
  lemma ComposeShape(a: string, b: string, c: string, w: bool, cls: string)
    requires a != "" && b != "" && c != ""
    ensures Join(DropEmpty([a, b, c, WidthClass(w), cls]), " ")
         == a + " " + b + " " + c + (if w then " w-full" else "") + (if cls != "" then " " + cls else "")
    ensures !w && cls == "" ==> Join(DropEmpty([a, b, c, WidthClass(w), cls]), " ") == a + " " + b + " " + c
  {
    var three := [a, b, c];
    DropEmptyFive(a, b, c, w, cls);
    JoinThree(a, b, c);
    if w && cls != "" {
      assert three + ["w-full"] + [cls] == (three + ["w-full"]) + [cls];
      JoinSnoc(three, "w-full", " ");
      JoinSnoc(three + ["w-full"], cls, " ");
    } else if w {
      assert three + ["w-full"] + [] == three + ["w-full"];
      JoinSnoc(three, "w-full", " ");
    } else if cls != "" {
      assert three + [] + [cls] == three + [cls];
      JoinSnoc(three, cls, " ");
    } else {
      assert three + [] + [] == three;
    }
  }

  /**
   * The class string: the base classes, a space, the size classes, a space, the
   * variant classes, then ` w-full` exactly when `fullWidth`, then a space and
   * `className` when that is not empty. So it always begins with the base classes.
   */
  lemma ClassNameShape(p: ButtonProps)
    ensures var cls := p.className.GetOr("");
      ClassName(p)
      == Base + " " + SizeClasses(p.size.GetOr("md")) + " " + VariantClasses(p.variant.GetOr("primary"))
         + (if p.fullWidth.GetOr(false) then " w-full" else "")
         + (if cls != "" then " " + cls else "")
    ensures !p.fullWidth.GetOr(false) && p.className.GetOr("") == "" ==>
      ClassName(p) == Base + " " + SizeClasses(p.size.GetOr("md")) + " " + VariantClasses(p.variant.GetOr("primary"))
    ensures Base <= ClassName(p)
  {
    FallbackSpec(p.size.GetOr("md"), p.variant.GetOr("primary"));
    assert |Base| > 0;
    ComposeShape(Base, SizeClasses(p.size.GetOr("md")), VariantClasses(p.variant.GetOr("primary")),
                 p.fullWidth.GetOr(false), p.className.GetOr(""));
  }

  /** With no props at all: the base, `md` and `primary` classes. */
  lemma DefaultClassName()
    ensures ClassName(NoProps) == Base + " " + Sizes["md"] + " " + Variants["primary"]
  {
    ClassNameShape(NoProps);
    FallbackSpec("md", "primary");
  }

  /** The attributes the component puts on its `<button>`. */
  datatype ButtonAttrs = ButtonAttrs(
    buttonType: string,
    className: string,
    disabled: bool,
    ariaDisabled: bool,
    ariaBusy: bool,
    spinner: bool)

  /** `isDisabled = disabled || loading`, and the attributes and spinner derived from the props. */
  function Render(p: ButtonProps): ButtonAttrs
  {
    var loading := p.loading.GetOr(false);
    var isDisabled := p.disabled.GetOr(false) || loading;
    ButtonAttrs(p.buttonType.GetOr("button"), ClassName(p), isDisabled, isDisabled, loading, loading)
  }

  /**
   * A loading button is always disabled; `aria-disabled` always equals
   * `disabled`, `aria-busy` equals `loading`, and the spinner shows exactly when
   * loading; a button is enabled only when neither disabled nor loading.
   */
  lemma RenderFlags(p: ButtonProps)
    ensures p.loading.GetOr(false) ==> Render(p).disabled
    ensures Render(p).ariaDisabled == Render(p).disabled
    ensures !Render(p).disabled <==> !p.disabled.GetOr(false) && !p.loading.GetOr(false)
    ensures Render(p).ariaBusy == Render(p).spinner == p.loading.GetOr(false)
  {
  }

  /** The defaults: `type="button"`, enabled, not busy, `md` and `primary` classes. */
  lemma RenderDefaults()
    ensures Render(NoProps)
         == ButtonAttrs("button", Base + " " + Sizes["md"] + " " + Variants["primary"], false, false, false, false)
  {
    DefaultClassName();
  }

  /**
   * The lookups as the source writes them: `sizes[size]` and `variants[variant]`
   * on plain objects, which also find the members of `Object.prototype`.
   * `text(name)` is the string the engine makes of the inherited member `name`
   * when `join` converts it (for `constructor`, `function Object() { [native code] }`).
   */
  function LookupOr(table: map<string, string>, key: string, fallback: string, text: string -> string): string
  {
    match Get(table, key)
    case Own(v) => if v != "" then v else fallback
    case Inherited(name) => text(name)
    case Undefined => fallback
  }

  function ClassNameAsWritten(p: ButtonProps, text: string -> string): string
  {
    Join(DropEmpty([Base, LookupOr(Sizes, p.size.GetOr("md"), Sizes["md"], text),
                    LookupOr(Variants, p.variant.GetOr("primary"), Variants["primary"], text),
                    WidthClass(p.fullWidth.GetOr(false)), p.className.GetOr("")]), " ")
  }

  /**
   * As written, `size="constructor"` does not fall back to `md`: the inherited
   * `Object` constructor takes the size's place in the class string.
   */
  lemma SizeConstructorAsWritten(text: string -> string)
    requires text("constructor") != ""
    ensures var p := ButtonProps(None, Some("constructor"), None, None, None, None, None);
      ClassNameAsWritten(p, text) == Base + " " + text("constructor") + " " + Variants["primary"]
      && ClassName(p) == Base + " " + Sizes["md"] + " " + Variants["primary"]
  {
    var p := ButtonProps(None, Some("constructor"), None, None, None, None, None);
    ConstructorLookups(text);
    var sz := LookupOr(Sizes, "constructor", Sizes["md"], text);
    var vr := LookupOr(Variants, "primary", Variants["primary"], text);
    assert ClassNameAsWritten(p, text) == Join(DropEmpty([Base, sz, vr, WidthClass(false), ""]), " ");
    assert |Base| > 0;
    ComposeShape(Base, sz, vr, false, "");
    SizeConstructorFallsBack();
  }

  lemma SizeConstructorFallsBack()
    ensures ClassName(ButtonProps(None, Some("constructor"), None, None, None, None, None))
         == Base + " " + Sizes["md"] + " " + Variants["primary"]
  {
    var p := ButtonProps(None, Some("constructor"), None, None, None, None, None);
    ClassNameShape(p);
    FallbackSpec("constructor", "primary");
  }

  lemma ConstructorLookups(text: string -> string)
    ensures LookupOr(Sizes, "constructor", Sizes["md"], text) == text("constructor")
    ensures LookupOr(Variants, "primary", Variants["primary"], text) == Variants["primary"] != ""
  {
    assert "constructor" !in Sizes && "constructor" in PrototypeMembers;
  }

  /** The two lookups agree on every size and variant that is not a name inherited from `Object.prototype`. */
  lemma AsWrittenAgreesOffPrototype(p: ButtonProps, text: string -> string)
    requires p.size.GetOr("md") !in PrototypeMembers && p.variant.GetOr("primary") !in PrototypeMembers
    ensures ClassNameAsWritten(p, text) == ClassName(p)
  {
  }
}
