/**
 * `TechIcon`: a technology name is normalised to an icon key (lower-cased,
 * whitespace removed) and looked up in a fixed table; a key the table lacks
 * falls back to the table's `default` entry. The icon is drawn at one of three
 * sizes, and the name is shown beside it only on request.
 */
module TechIcon {
  import opened Js
  import opened Strings

  datatype IconSize = Sm | Md | Lg

  /** The icon components of the table. */
  datatype Icon = Code2 | Database | Palette | Wrench | Terminal | Boxes | Brain | Sparkles

  /** `sizeMap`. */
  function SizeClass(size: IconSize): string {
    match size
    case Sm => "w-4 h-4"
    case Md => "w-5 h-5"
    case Lg => "w-6 h-6"
  }

  const DefaultSize := Md
  const DefaultShowLabel := false

  /** `iconMap`, including its `default` entry. */
  const IconMap: map<string, Icon> := map[
    "react" := Code2, "nextjs" := Code2, "typescript" := Terminal, "javascript" := Terminal,
    "tailwind" := Palette, "css" := Palette, "html" := Code2, "shadcn" := Boxes,
    "nodejs" := Terminal, "express" := Database, "python" := Terminal, "django" := Database,
    "flask" := Database,
    "ai" := Brain, "ml" := Brain, "llm" := Sparkles, "gemini" := Sparkles, "openai" := Sparkles,
    "langchain" := Brain,
    "mongodb" := Database, "postgresql" := Database, "mysql" := Database, "prisma" := Database,
    "git" := Wrench, "docker" := Boxes, "vercel" := Wrench, "linux" := Terminal, "vscode" := Code2,
    "default" := Code2]

  predicate NoUpper(s: string) {
    forall i :: 0 <= i < |s| ==> !('A' <= s[i] <= 'Z')
  }

  /** `name.toLowerCase().replace(/\s+/g, "")`: the key has no whitespace and
      no upper-case letter. */
  function NormalizeKey(name: string): (key: string)
    ensures NoSpace(key) && NoUpper(key)
    ensures |key| <= |name|
  {
    var lower := ToLower(name);
    RemoveSpacesKeeps(lower);
    RemoveSpaces(lower)
  }

  /** Removing whitespace keeps only characters of the input. */
  lemma {:induction false} RemoveSpacesKeeps(s: string)
    ensures forall i :: 0 <= i < |RemoveSpaces(s)| ==> RemoveSpaces(s)[i] in s
  {
    if s != [] {
      RemoveSpacesKeeps(s[1..]);
      var r := RemoveSpaces(s[1..]);
      forall i | 0 <= i < |r| ensures r[i] in s {
        assert r[i] in s[1..];
      }
      if !IsSpace(s[0]) {
        var t := [s[0]] + r;
        forall i | 0 <= i < |t| ensures t[i] in s {
          if i > 0 { assert t[i] == r[i - 1]; }
        }
      }
    }
  }

  /** A string that already has no upper-case letter is its own lower case. */
  lemma ToLowerNoUpper(s: string)
    requires NoUpper(s)
    ensures ToLower(s) == s
  {
  }

  /** A string without whitespace or upper-case letters is its own key. */
  lemma NormalizeKeyOfKey(key: string)
    requires NoSpace(key) && NoUpper(key)
    ensures NormalizeKey(key) == key
  {
    ToLowerNoUpper(key);
  }

  predicate LowerLetters(s: string) {
    forall i :: 0 <= i < |s| ==> 'a' <= s[i] <= 'z'
  }

  /** A word of lower-case letters is its own key. */
  lemma LowerLettersKey(key: string)
    requires LowerLetters(key)
    ensures NormalizeKey(key) == key
  {
    NormalizeKeyOfKey(key);
  }

  /** A key is its own key: normalising twice is normalising once. */
  lemma NormalizeKeyIdempotent(name: string)
    ensures NormalizeKey(NormalizeKey(name)) == NormalizeKey(name)
  {
    NormalizeKeyOfKey(NormalizeKey(name));
  }

  lemma LowerOfUpperChar(c: char)
    ensures ToLowerChar(ToUpperChar(c)) == ToLowerChar(c)
  {
    if 'a' <= c <= 'z' {
      assert ToUpperChar(c) == (c as int - 32) as char;
    }
  }

  lemma LowerOfUpper(s: string)
    ensures ToLower(ToUpper(s)) == ToLower(s)
  {
    var u := ToUpper(s);
    forall i | 0 <= i < |s| ensures ToLowerChar(u[i]) == ToLowerChar(s[i]) {
      LowerOfUpperChar(s[i]);
    }
  }

  /** Case does not matter: an upper-cased or lower-cased name has the same key. */
  lemma NormalizeKeyIgnoresCase(name: string)
    ensures NormalizeKey(ToUpper(name)) == NormalizeKey(name)
    ensures NormalizeKey(ToLower(name)) == NormalizeKey(name)
  {
    LowerOfUpper(name);
    ToLowerNoUpper(ToLower(name));
  }

  /** Whitespace does not matter: inserting a whitespace character anywhere
      leaves the key unchanged. */
  lemma {:induction false} NormalizeKeyIgnoresSpace(a: string, c: char, b: string)
    requires IsSpace(c)
    ensures NormalizeKey(a + [c] + b) == NormalizeKey(a + b)
  {
    ToLowerAppend(a + [c], b);
    ToLowerAppend(a, [c]);
    ToLowerAppend(a, b);
    assert ToLower([c]) == [c] by {
      assert !('A' <= c <= 'Z');
    }
    RemoveSpacesSkips(ToLower(a), c, ToLower(b));
  }

  lemma ToLowerAppend(a: string, b: string)
    ensures ToLower(a + b) == ToLower(a) + ToLower(b)
  {
    var l, r := ToLower(a + b), ToLower(a) + ToLower(b);
    forall i | 0 <= i < |l| ensures l[i] == r[i] {
      if i < |a| {
        assert (a + b)[i] == a[i];
      } else {
        assert (a + b)[i] == b[i - |a|];
      }
    }
  }

  lemma {:induction false} RemoveSpacesSkips(a: string, c: char, b: string)
    requires IsSpace(c)
    ensures RemoveSpaces(a + [c] + b) == RemoveSpaces(a + b)
  {
    if a == [] {
      assert a + [c] + b == [c] + b && a + b == b;
      assert ([c] + b)[0] == c && ([c] + b)[1..] == b;
    } else {
      RemoveSpacesSkips(a[1..], c, b);
      assert (a + [c] + b)[0] == a[0] && (a + [c] + b)[1..] == a[1..] + [c] + b;
      assert (a + b)[0] == a[0] && (a + b)[1..] == a[1..] + b;
    }
  }

  /** "NEXTJS" looks up "nextjs". */
  lemma UpperKeyExample()
    ensures NormalizeKey("NEXTJS") == "nextjs"
  {
    var key := "nextjs";
    assert LowerLetters(key);
    LowerLettersKey(key);
    assert ToUpper(key) == "NEXTJS";
    NormalizeKeyIgnoresCase(key);
  }

  /** "Next JS" looks up the same key as "NEXTJS". */
  lemma SpacedKeyExample()
    ensures NormalizeKey("Next JS") == NormalizeKey("NEXTJS")
  {
    assert "Next" + [' '] + "JS" == "Next JS" && "Next" + "JS" == "NextJS";
    NormalizeKeyIgnoresSpace("Next", ' ', "JS");
    assert ToLower("NextJS") == ToLower("NEXTJS");
    NormalizeKeyIgnoresCase("NextJS");
    NormalizeKeyIgnoresCase("NEXTJS");
  }

  /** `iconMap[iconKey] || iconMap.default`: every entry is a component, so
      the lookup falls back exactly when the key is missing. */
  function IconFor(name: string): Icon {
    var key := NormalizeKey(name);
    if key in IconMap then IconMap[key] else IconMap["default"]
  }

  /** The icon is the table's entry for the key, or the default `Code2` when
      the table has no entry for it. */
  lemma IconForMeans(name: string)
    ensures NormalizeKey(name) in IconMap ==> IconFor(name) == IconMap[NormalizeKey(name)]
    ensures NormalizeKey(name) !in IconMap ==> IconFor(name) == Code2
    ensures IconFor(ToUpper(name)) == IconFor(name)
  {
    NormalizeKeyIgnoresCase(name);
  }

  /** The icon keys the skills data passes, in data order. */
  const SkillIconKeys: seq<string> := [
    "react", "nextjs", "tailwind", "typescript", "shadcn", "css",
    "nodejs", "express", "postgresql", "mongodb", "prisma", "api",
    "python", "tensorflow", "pytorch", "openai", "langchain", "huggingface",
    "github", "vercel", "docker", "vscode", "linux"]

  const MissingSkillIconKeys: seq<string> := ["api", "tensorflow", "pytorch", "huggingface", "github"]

  /** Every other skill key has an entry of its own. */
  lemma SkillIconKeysPresent()
    ensures forall k :: k in SkillIconKeys && k !in MissingSkillIconKeys ==> k in IconMap
  {
  }

  /** The five missing keys are skill keys the table lacks. */
  lemma SkillIconKeysAbsent()
    ensures forall k :: k in MissingSkillIconKeys ==> k in SkillIconKeys && k !in IconMap
  {
  }

  /** Exactly five skill keys have no entry of their own. */
  lemma SkillIconKeysMissing()
    ensures forall k :: k in SkillIconKeys ==> (k !in IconMap <==> k in MissingSkillIconKeys)
  {
    SkillIconKeysPresent();
    SkillIconKeysAbsent();
  }

  /** A key of lower-case letters the table lacks shows the default icon. */
  lemma FallbackKey(k: string)
    requires LowerLetters(k) && k !in IconMap
    ensures IconFor(k) == Code2
  {
    LowerLettersKey(k);
  }

  /** The five missing keys are words of lower-case letters. */
  lemma MissingSkillIconKeysLower()
    ensures LowerLetters("api") && LowerLetters("tensorflow") && LowerLetters("pytorch")
    ensures LowerLetters("huggingface") && LowerLetters("github")
  {
  }

  /** The five skill keys the table lacks show the default icon. */
  lemma SkillIconFallbacks()
    ensures forall k :: k in MissingSkillIconKeys ==> k in SkillIconKeys && IconFor(k) == Code2
  {
    MissingSkillIconKeysLower();
    SkillIconKeysAbsent();
    forall k | k in MissingSkillIconKeys ensures IconFor(k) == Code2 {
      FallbackKey(k);
    }
  }

  /** What the component renders: the icon with its size classes, and the
      name as a label when asked for. */
  datatype View = View(icon: Icon, sizeClass: string, caption: Option<string>)

  /** `TechIcon({ name, size = "md", showLabel = false })`. */
  function Render(name: string, size: Option<IconSize>, showLabel: Option<bool>): View {
    var s := if size.Some? then size.value else DefaultSize;
    var show := if showLabel.Some? then showLabel.value else DefaultShowLabel;
    View(IconFor(name), SizeClass(s), if show then Some(name) else None)
  }

  /** The size defaults to medium; the label shows the name exactly when
      `showLabel` is true, so by default there is none. */
  lemma RenderDefaults(name: string, size: Option<IconSize>, showLabel: Option<bool>)
    ensures size.None? ==> Render(name, size, showLabel).sizeClass == "w-5 h-5"
    ensures Render(name, size, showLabel).caption.Some? <==> showLabel == Some(true)
    ensures Render(name, size, showLabel).caption.Some? ==> Render(name, size, showLabel).caption.value == name
    ensures Render(name, None, None) == View(IconFor(name), "w-5 h-5", None)
  {
  }

  /** The three sizes draw at three different sizes. */
  lemma SizeClassesDistinct(a: IconSize, b: IconSize)
    ensures SizeClass(a) == SizeClass(b) <==> a == b
  {
    assert SizeClass(Sm)[2] == '4' && SizeClass(Md)[2] == '5' && SizeClass(Lg)[2] == '6';
  }
}
