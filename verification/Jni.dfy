/** JNI symbol names (src/core/jni.rs): the mangling of package, class and method into
    one C symbol, and what can be read back from it. */
module Jni {
  import opened Text

  /** `s.replace('_', "_1").replace('.', "_")` */
  function Encode(s: string): string {
    Replace(Replace(s, "_", "_1"), ".", "_")
  }

  /** `jni_symbol`; an empty method yields the common prefix of the class. */
  function JniSymbol(package: string, class_: string, method_: string): string {
    var prefix := "Java_" + Encode(package) + "_" + Encode(class_);
    if method_ == [] then prefix else prefix + "_" + Encode(method_)
  }

  // ----- The encoding in one pass -----

  function Mangle(c: char): string {
    if c == '_' then "_1" else if c == '.' then "_" else [c]
  }

  function OnePass(s: string): string {
    if s == [] then [] else Mangle(s[0]) + OnePass(s[1..])
  }

  lemma ReplaceSingle(x: char, c: char, with: string)
    ensures Replace([x], [c], with) == if x == c then with else [x]
  {
    ReplaceChar([x], c, with);
    assert with + [] == with;
  }

  lemma ReplacePair(x: char, y: char, c: char, with: string)
    requires x != c && y != c
    ensures Replace([x, y], [c], with) == [x, y]
  {
    assert [x, y] == [x] + [y];
    ReplaceAppend([x], [y], c, with);
    ReplaceSingle(x, c, with);
    ReplaceSingle(y, c, with);
  }

  lemma MangleOne(c: char)
    ensures Encode([c]) == Mangle(c)
  {
    ReplaceSingle(c, '_', "_1");
    if c == '_' {
      ReplacePair('_', '1', '.', "_");
    } else {
      ReplaceSingle(c, '.', "_");
    }
  }

  /** The second replacement never touches what the first one wrote, so the two together
      encode each character by itself. */
  lemma {:induction false} EncodeIsOnePass(s: string)
    ensures Encode(s) == OnePass(s)
  {
    if s != [] {
      assert s == [s[0]] + s[1..];
      EncodeAppend([s[0]], s[1..]);
      MangleOne(s[0]);
      EncodeIsOnePass(s[1..]);
    }
  }

  lemma EncodeAppend(a: string, b: string)
    ensures Encode(a + b) == Encode(a) + Encode(b)
  {
    ReplaceAppend(a, b, '_', "_1");
    ReplaceAppend(Replace(a, "_", "_1"), Replace(b, "_", "_1"), '.', "_");
  }

  /** The separators between the parts are what encoding a dot writes. */
  lemma SymbolEncodesDottedName(package: string, class_: string, method_: string)
    ensures JniSymbol(package, class_, method_)
         == "Java_" + Encode(if method_ == [] then package + "." + class_
                             else package + "." + class_ + "." + method_)
  {
    EncodeAppend(package + ".", class_);
    EncodeAppend(package, ".");
    MangleOne('.');
    assert "Java_" + (Encode(package) + "_" + Encode(class_))
        == "Java_" + Encode(package) + "_" + Encode(class_);
    if method_ != [] {
      EncodeAppend(package + "." + class_ + ".", method_);
      EncodeAppend(package + "." + class_, ".");
      Regroup("Java_", Encode(package + "." + class_), "_", Encode(method_));
    }
  }

  lemma Regroup(a: string, b: string, c: string, d: string)
    ensures a + b + c + d == a + (b + c + d)
  {
  }

  // ----- Decoding -----

  function Decode(s: string): string {
    if s == [] then []
    else if s[0] != '_' then [s[0]] + Decode(s[1..])
    else if |s| > 1 && s[1] == '1' then ['_'] + Decode(s[2..])
    else ['.'] + Decode(s[1..])
  }

  /** Some dot is directly followed by the digit one. */
  predicate DotOne(s: string) {
    |s| >= 2 && ((s[0] == '.' && s[1] == '1') || DotOne(s[1..]))
  }

  lemma OnePassStart(s: string)
    requires s != []
    ensures OnePass(s) != []
    ensures OnePass(s)[0] == '1' <==> s[0] == '1'
  {
  }

  /** Decoding undoes encoding exactly when no dot is followed by the digit one. */
  lemma {:induction false} DecodeEncode(s: string)
    ensures Decode(Encode(s)) == s <==> !DotOne(s)
  {
    EncodeIsOnePass(s);
    DecodeOnePass(s);
  }

  lemma {:induction false} DecodeOnePass(s: string)
    ensures !DotOne(s) ==> Decode(OnePass(s)) == s
    ensures DotOne(s) ==> Decode(OnePass(s)) != s
  {
    if s != [] {
      var rest := OnePass(s[1..]);
      DecodeOnePass(s[1..]);
      assert s == [s[0]] + s[1..];
      if s[0] == '_' {
        assert OnePass(s)[2..] == rest;
      } else if s[0] != '.' {
        assert OnePass(s)[1..] == rest;
      } else {
        assert OnePass(s) == "_" + rest && OnePass(s)[1..] == rest;
        if |s| > 1 {
          OnePassStart(s[1..]);
          assert DotOne(s) <==> s[1] == '1' || DotOne(s[1..]);
        }
      }
    }
  }

  // ----- Injectivity -----

  predicate IsIdentifierStart(c: char) {
    IsUpper(c) || IsLower(c) || c == '_' || c == '$'
  }

  /** An ASCII Java identifier. */
  predicate IsIdentifier(s: string) {
    s != [] && IsIdentifierStart(s[0])
    && forall i | 0 <= i < |s| :: IsIdentifierStart(s[i]) || IsDigit(s[i])
  }

  ghost predicate AllIdentifiers(parts: seq<string>) {
    forall i | 0 <= i < |parts| :: IsIdentifier(parts[i])
  }

  lemma {:induction false} DottedStart(parts: seq<string>)
    requires parts != [] && AllIdentifiers(parts)
    ensures Join(parts, ".") != [] && Join(parts, ".")[0] == parts[0][0]
  {
  }

  lemma DotOneAppend(a: string, b: string)
    requires !DotOne(a) && !DotOne(b)
    requires a != [] && b != [] ==> a[|a| - 1] != '.' || b[0] != '1'
    ensures !DotOne(a + b)
  {
    if a == [] {
      assert a + b == b;
    } else {
      assert (a + b)[1..] == a[1..] + b;
      DotOneAppend(a[1..], b);
    }
  }

  lemma IdentifierHasNoDot(s: string)
    requires Lacks(s, '.')
    ensures !DotOne(s)
  {
  }

  lemma {:induction false} DottedHasNoDotOne(parts: seq<string>)
    requires parts != [] && AllIdentifiers(parts)
    ensures !DotOne(Join(parts, "."))
  {
    IdentifierHasNoDot(parts[0]);
    if |parts| > 1 {
      DottedHasNoDotOne(parts[1..]);
      DottedStart(parts[1..]);
      DotOneAppend(parts[0], ".");
      DotOneAppend(parts[0] + ".", Join(parts[1..], "."));
    }
  }

  /** The part after the last dot is determined by the text. */
  lemma LastDotSplits(a: string, b: string, c: string, d: string)
    requires a + "." + b == c + "." + d && Lacks(b, '.') && Lacks(d, '.')
    ensures a == c && b == d
  {
    var s := a + "." + b;
    assert s[|a|] == '.' && s[|c|] == '.';
    assert forall i | |a| < i < |s| :: s[i] == b[i - |a| - 1];
    assert forall i | |c| < i < |s| :: s[i] == d[i - |c| - 1];
    assert a == s[..|a|] && c == s[..|c|];
    assert b == s[|a| + 1..] && d == s[|c| + 1..];
  }

  /** A package is named by its dotted segments; the unnamed package has none. */
  lemma DottedNameDecodes(package: seq<string>, class_: string, method_: string)
    requires AllIdentifiers(package) && IsIdentifier(class_) && IsIdentifier(method_)
    ensures var name := Join(package, ".") + "." + class_ + "." + method_;
            Decode(Encode(name)) == name
  {
    var p := Join(package, ".");
    if package != [] { DottedHasNoDotOne(package); }
    IdentifierHasNoDot(class_);
    IdentifierHasNoDot(method_);
    DotOneAppend(p, ".");
    DotOneAppend(p + ".", class_);
    DotOneAppend(p + "." + class_, ".");
    DotOneAppend(p + "." + class_ + ".", method_);
    DecodeEncode(p + "." + class_ + "." + method_);
  }

  /** Two native methods never share a symbol. */
  lemma JniSymbolInjective(p: seq<string>, c: string, m: string,
                           p': seq<string>, c': string, m': string)
    requires AllIdentifiers(p) && IsIdentifier(c) && IsIdentifier(m)
    requires AllIdentifiers(p') && IsIdentifier(c') && IsIdentifier(m')
    ensures JniSymbol(Join(p, "."), c, m) == JniSymbol(Join(p', "."), c', m')
       <==> Join(p, ".") == Join(p', ".") && c == c' && m == m'
  {
    var name := Join(p, ".") + "." + c + "." + m;
    var name' := Join(p', ".") + "." + c' + "." + m';
    SymbolEncodesDottedName(Join(p, "."), c, m);
    SymbolEncodesDottedName(Join(p', "."), c', m');
    if JniSymbol(Join(p, "."), c, m) == JniSymbol(Join(p', "."), c', m') {
      CancelPrefix("Java_", Encode(name), Encode(name'));
      DottedNameDecodes(p, c, m);
      DottedNameDecodes(p', c', m');
      LastDotSplits(Join(p, ".") + "." + c, m, Join(p', ".") + "." + c', m');
      LastDotSplits(Join(p, "."), c, Join(p', "."), c');
    }
  }

  lemma CancelPrefix(prefix: string, a: string, b: string)
    requires prefix + a == prefix + b
    ensures a == b
  {
    assert a == (prefix + a)[|prefix|..];
    assert b == (prefix + b)[|prefix|..];
  }

  lemma DigitSegmentEncodes()
    ensures Encode("a.1b") == Encode("a_b")
  {
    EncodeIsOnePass("a.1b");
    EncodeIsOnePass("a_b");
    assert OnePass("a.1b"[1..]) == OnePass(".1b") == "_" + OnePass("1b") && OnePass("1b") == "1" + OnePass("b");
    assert OnePass("a_b"[1..]) == OnePass("_b") == "_1" + OnePass("b");
  }

  /** A segment that starts with a digit is read as an escaped underscore. */
  lemma DigitSegmentCollides()
    ensures JniSymbol("a.1b", "C", "m") == JniSymbol("a_b", "C", "m")
  {
    DigitSegmentEncodes();
  }

  /** Every symbol of a class starts with the symbol of its empty method, which is at the
      same time the symbol of a method in the package of that name. */
  lemma ClassPrefix(package: string, class_: string, method_: string)
    requires method_ != []
    ensures JniSymbol(package, class_, method_)
         == JniSymbol(package, class_, "") + "_" + Encode(method_)
         == JniSymbol(package + "." + class_, method_, "")
  {
    SymbolEncodesDottedName(package, class_, method_);
    SymbolEncodesDottedName(package + "." + class_, method_, "");
  }

  // ----- Against the standard -----

  /** The escapes of the JNI Specification, chapter 2, "Resolving Native Method Names",
      for the characters an ASCII identifier may hold. */
  function StandardMangle(c: char): string {
    if c == '_' then "_1" else if c == '.' then "_" else if c == '$' then "_00024" else [c]
  }

  function Standard(s: string): string {
    if s == [] then [] else StandardMangle(s[0]) + Standard(s[1..])
  }

  lemma {:induction false} StandardGrows(s: string)
    ensures |OnePass(s)| <= |Standard(s)|
    ensures '$' in s ==> |OnePass(s)| < |Standard(s)|
    ensures '$' !in s ==> OnePass(s) == Standard(s)
  {
    if s != [] {
      assert s == [s[0]] + s[1..];
      StandardGrows(s[1..]);
    }
  }

  /** The code leaves a dollar sign as it is; on every other identifier it writes the
      standard's name. */
  lemma FollowsStandardUnlessDollar(s: string)
    ensures Encode(s) == Standard(s) <==> '$' !in s
  {
    EncodeIsOnePass(s);
    StandardGrows(s);
  }

  /** A name that the standard writes otherwise. */
  lemma DollarStays()
    ensures Encode("a$b") == "a$b" != Standard("a$b")
  {
    EncodeIsOnePass("a$b");
    assert "a$b"[1] == '$';
    StandardGrows("a$b");
    assert "a$b"[1..] == "$b" && "$b"[1..] == "b" && "b"[1..] == [];
  }
}
