// ArvGcRegisterDescriptionNode (arvgcregisterdescriptionnode.c): the root
// element of a GenICam document. It keeps the ModelName attribute and the
// three parts of the schema version, and compares that version with one a
// caller requires.
//
// The version attributes are read by g_ascii_strtoll (value, NULL, 0) and
// stored in guint fields, so the gint64 it returns is cut to its low 32
// bits. The attributes the node does not handle go to its parent class,
// the feature node (arvgcfeaturenode.c:131-172), whose attribute handling
// is modelled here too: it keeps Name, folds NameSpace to Standard or
// Custom, and ignores every other attribute, which reads back as NULL.
module GcRegisterDescription {
  import opened Common
  import EvaluatorLexer

  /** arv_gc_register_description_node_get_node_name. */
  const NODE_NAME: string := "RegisterDescription"

  /** A schema version: SchemaMajorVersion, SchemaMinorVersion and
      SchemaSubMinorVersion. */
  datatype SchemaVersion = SchemaVersion(major: uint32, minor: uint32, subminor: uint32)

  /** ArvGcNameSpace. STANDARD is the enumeration's first value, 0. */
  datatype NameSpace = Standard | Custom

  /** The feature node's set_attribute for NameSpace: "Standard" is the
      standard name space, any other value the custom one. */
  function NameSpaceOf(value: string): (ns: NameSpace)
    ensures ns == Standard <==> value == "Standard"
  {
    if value == "Standard" then Standard else Custom
  }

  /** The feature node's get_attribute for NameSpace. */
  function NameSpaceText(ns: NameSpace): (s: string)
    ensures NameSpaceOf(s) == ns
  {
    match ns
    case Standard => "Standard"
    case Custom => "Custom"
  }

  // ---------------------------------------------------------------------
  // g_ascii_strtoll (value, NULL, 0)

  /** The integer at the start of an attribute value: blanks, an optional
      sign, then a literal in base 0 (hexadecimal after 0x, octal after a
      leading 0, decimal otherwise), clamped to the gint64 range; 0 when no
      digit follows. */
  function ParseInteger(value: string): (r: int64)
    ensures var i := EvaluatorLexer.SkipSpaces(value, 0);
            var c := EvaluatorLexer.At(value, i);
            var j := if c == '-' || c == '+' then i + 1 else i;
            !EvaluatorLexer.IsDigit(EvaluatorLexer.At(value, j)) ==> r == 0
    ensures EvaluatorLexer.At(value, EvaluatorLexer.SkipSpaces(value, 0)) == '-' ==> r <= 0
    ensures EvaluatorLexer.At(value, EvaluatorLexer.SkipSpaces(value, 0)) != '-' ==> r >= 0
  {
    var i := EvaluatorLexer.SkipSpaces(value, 0);
    var c := EvaluatorLexer.At(value, i);
    var j := if c == '-' || c == '+' then i + 1 else i;
    if j < |value| && EvaluatorLexer.IsDigit(value[j]) then
      var lit := EvaluatorLexer.IntegerDigits(value, j);
      var n := EvaluatorLexer.DigitsValue(value, lit.digitsStart, lit.end, lit.base);
      if c == '-' then (if n >= -(INT64_MIN as int) then INT64_MIN else -(n as int))
      else Min(n, INT64_MAX)
    else 0
  }

  /** The value a version field ends up with: the parsed gint64 cut to a
      guint. */
  function ParseVersion(value: string): (r: uint32)
    ensures 0 <= ParseInteger(value) < 0x1_0000_0000 ==> r == ParseInteger(value)
    ensures -0x1_0000_0000 <= ParseInteger(value) < 0 ==> r == ParseInteger(value) + 0x1_0000_0000
  {
    ToU32(ParseInteger(value))
  }

  // ---------------------------------------------------------------------
  // The comparison

  /** arv_gc_register_description_node_check_schema_version, as written:
      a larger minor version is rejected like a smaller one. */
  function CheckAsWritten(v: SchemaVersion, required: SchemaVersion): bool
  {
    if v.major < required.major then false
    else if v.major > required.major then true
    else if v.minor < required.minor then false
    else if v.minor > required.minor then false
    else if v.subminor < required.subminor then false
    else true
  }

  /** The comparison with a larger minor version accepted, as a larger
      major version is. */
  function CheckCorrected(v: SchemaVersion, required: SchemaVersion): bool
  {
    if v.major < required.major then false
    else if v.major > required.major then true
    else if v.minor < required.minor then false
    else if v.minor > required.minor then true
    else if v.subminor < required.subminor then false
    else true
  }

  /** The parts of a version, most significant first. */
  function Parts(v: SchemaVersion): (p: seq<nat>)
    ensures |p| == 3 && p[0] == v.major && p[1] == v.minor && p[2] == v.subminor
  {
    [v.major, v.minor, v.subminor]
  }

  /** The lexicographic order on sequences of the same length: a is at
      least b. */
  predicate LexAtLeast(a: seq<nat>, b: seq<nat>)
    requires |a| == |b|
    decreases |a|
  {
    |a| == 0 || a[0] > b[0] || (a[0] == b[0] && LexAtLeast(a[1..], b[1..]))
  }

  /** A version is at least another in the order of its parts. */
  predicate AtLeast(v: SchemaVersion, w: SchemaVersion)
  {
    LexAtLeast(Parts(v), Parts(w))
  }

  // ---------------------------------------------------------------------
  // The node

  class RegisterDescriptionNode {
    var modelName: Option<string>
    var majorVersion: uint32
    var minorVersion: uint32
    var subminorVersion: uint32
    /** The feature node's name (priv->name), NULL until set. */
    var featureName: Option<string>
    /** The feature node's priv->name_space. */
    var nameSpace: NameSpace

    /** arv_gc_register_description_node_new and the two _init functions:
        version 0.0.0, no model name and no feature name. The feature
        node's private part is zero-filled, so its name space is 0, which
        is STANDARD. */
    constructor ()
      ensures modelName == None && featureName == None && nameSpace == Standard
      ensures majorVersion == 0 && minorVersion == 0 && subminorVersion == 0
    {
      modelName := None;
      majorVersion, minorVersion, subminorVersion := 0, 0, 0;
      featureName := None;
      nameSpace := Standard;
    }

    /** arv_gc_register_description_node_set_attribute: ModelName and the
        three version attributes are the node's own; any other attribute
        goes to the feature node, which keeps Name, sets the name space
        from NameSpace and ignores the rest. */
    method SetAttribute(name: string, value: string)
      modifies this
      ensures modelName == if name == "ModelName" then Some(value) else old(modelName)
      ensures majorVersion == if name == "SchemaMajorVersion" then ParseVersion(value) else old(majorVersion)
      ensures minorVersion == if name == "SchemaMinorVersion" then ParseVersion(value) else old(minorVersion)
      ensures subminorVersion == if name == "SchemaSubMinorVersion" then ParseVersion(value) else old(subminorVersion)
      ensures featureName == if name == "Name" then Some(value) else old(featureName)
      ensures nameSpace == if name == "NameSpace" then NameSpaceOf(value) else old(nameSpace)
      ensures name == "ModelName" || name == "Name" ==> GetAttribute(name) == Some(value)
      ensures name == "NameSpace" ==> GetAttribute(name) == Some(NameSpaceText(NameSpaceOf(value)))
    {
      if name == "ModelName" {
        modelName := Some(value);
      } else if name == "SchemaMajorVersion" {
        majorVersion := ParseVersion(value);
      } else if name == "SchemaMinorVersion" {
        minorVersion := ParseVersion(value);
      } else if name == "SchemaSubMinorVersion" {
        subminorVersion := ParseVersion(value);
      } else if name == "Name" {
        featureName := Some(value);
      } else if name == "NameSpace" {
        nameSpace := NameSpaceOf(value);
      }
    }

    /** arv_gc_register_description_node_get_attribute: ModelName is the
        node's own (NULL until set); every other name is asked of the
        feature node, which answers Name and NameSpace and gives NULL for
        the rest, the version attributes included. */
    function GetAttribute(name: string): (r: Option<string>)
      reads this
      ensures name == "ModelName" ==> r == modelName
      ensures name == "Name" ==> r == featureName
      ensures name == "NameSpace" ==> r.Some? && NameSpaceOf(r.value) == nameSpace
      ensures name != "ModelName" && name != "Name" && name != "NameSpace" ==> r == None
    {
      if name == "ModelName" then modelName
      else if name == "Name" then featureName
      else if name == "NameSpace" then Some(NameSpaceText(nameSpace))
      else None
    }

    function Version(): (v: SchemaVersion)
      reads this
      ensures v.major == majorVersion && v.minor == minorVersion && v.subminor == subminorVersion
    {
      SchemaVersion(majorVersion, minorVersion, subminorVersion)
    }

    /** arv_gc_register_description_node_check_schema_version. */
    function CheckSchemaVersion(requiredMajor: uint32, requiredMinor: uint32, requiredSubminor: uint32): (r: bool)
      reads this
      ensures r == CheckAsWritten(Version(), SchemaVersion(requiredMajor, requiredMinor, requiredSubminor))
    {
      CheckAsWritten(Version(), SchemaVersion(requiredMajor, requiredMinor, requiredSubminor))
    }
  }

  // ---------------------------------------------------------------------
  // Properties

  /** The comparison as written, case by case: a smaller major version
      fails and a larger one passes; with the same major version only the
      same minor version can pass, and then exactly when the subminor
      version is at least the required one. */
  lemma AsWrittenCases(v: SchemaVersion, required: SchemaVersion)
    ensures v.major < required.major ==> !CheckAsWritten(v, required)
    ensures v.major > required.major ==> CheckAsWritten(v, required)
    ensures v.major == required.major && v.minor != required.minor ==> !CheckAsWritten(v, required)
    ensures v.major == required.major && v.minor == required.minor ==>
              (CheckAsWritten(v, required) <==> v.subminor >= required.subminor)
  {
  }

  /** The corrected comparison is the lexicographic order of the parts. */
  lemma CorrectedIsOrder(v: SchemaVersion, required: SchemaVersion)
    ensures CheckCorrected(v, required) <==> AtLeast(v, required)
  {
    var p, q := Parts(v), Parts(required);
    assert p[1..][1..] == [v.subminor] && q[1..][1..] == [required.subminor];
    assert LexAtLeast(p[1..][1..], q[1..][1..]) <==> v.subminor >= required.subminor;
    assert LexAtLeast(p[1..], q[1..]) <==>
             v.minor > required.minor || (v.minor == required.minor && v.subminor >= required.subminor);
  }

  /** The comparison as written is the lexicographic order, except that
      a version with the required major version and a larger minor one is
      refused. */
  lemma AsWrittenAgainstOrder(v: SchemaVersion, required: SchemaVersion)
    ensures CheckAsWritten(v, required) <==>
              AtLeast(v, required) && !(v.major == required.major && v.minor > required.minor)
  {
    CorrectedIsOrder(v, required);
  }

  /** What the finding comes to: 1.2.0 is refused against 1.1.0 while 2.0.0
      is accepted, although 1.2.0 is the later of 1.1.0 and 1.2.0. */
  lemma AsWrittenRefusesLaterMinor()
    ensures AtLeast(SchemaVersion(1, 2, 0), SchemaVersion(1, 1, 0))
    ensures !CheckAsWritten(SchemaVersion(1, 2, 0), SchemaVersion(1, 1, 0))
    ensures CheckAsWritten(SchemaVersion(2, 0, 0), SchemaVersion(1, 1, 0))
    ensures CheckCorrected(SchemaVersion(1, 2, 0), SchemaVersion(1, 1, 0))
  {
    CorrectedIsOrder(SchemaVersion(1, 2, 0), SchemaVersion(1, 1, 0));
  }

  /** The lexicographic order is reflexive and total ... */
  lemma {:induction false} LexTotal(a: seq<nat>, b: seq<nat>)
    requires |a| == |b|
    ensures LexAtLeast(a, a)
    ensures LexAtLeast(a, b) || LexAtLeast(b, a)
    decreases |a|
  {
    if |a| > 0 {
      LexTotal(a[1..], b[1..]);
    }
  }

  /** ... transitive ... */
  lemma {:induction false} LexTransitive(a: seq<nat>, b: seq<nat>, c: seq<nat>)
    requires |a| == |b| == |c|
    requires LexAtLeast(a, b) && LexAtLeast(b, c)
    ensures LexAtLeast(a, c)
    decreases |a|
  {
    if |a| > 0 && a[0] == b[0] == c[0] {
      LexTransitive(a[1..], b[1..], c[1..]);
    }
  }

  /** ... and antisymmetric. */
  lemma {:induction false} LexAntisymmetric(a: seq<nat>, b: seq<nat>)
    requires |a| == |b|
    requires LexAtLeast(a, b) && LexAtLeast(b, a)
    ensures a == b
    decreases |a|
  {
    if |a| > 0 {
      LexAntisymmetric(a[1..], b[1..]);
      assert a == [a[0]] + a[1..] && b == [b[0]] + b[1..];
    }
  }

  /** The corrected comparison is monotone: a version at least one that
      passes passes too. The one as written is not (see
      AsWrittenRefusesLaterMinor). */
  lemma CorrectedMonotone(v: SchemaVersion, w: SchemaVersion, required: SchemaVersion)
    requires AtLeast(v, w) && CheckCorrected(w, required)
    ensures CheckCorrected(v, required)
  {
    CorrectedIsOrder(w, required);
    LexTransitive(Parts(v), Parts(w), Parts(required));
    CorrectedIsOrder(v, required);
  }

  /** Every version passes against itself, and with the correction also
      against 0.0.0, the version a node has before its attributes are set. */
  lemma CorrectedReflexive(v: SchemaVersion)
    ensures CheckCorrected(v, v) && CheckAsWritten(v, v)
    ensures CheckCorrected(v, SchemaVersion(0, 0, 0))
  {
  }

  /** A node whose version attributes were never set (0.0.0) passes only
      the requirement 0.0.0. */
  lemma FreshNodeVersion(v: SchemaVersion)
    ensures CheckAsWritten(SchemaVersion(0, 0, 0), v) <==> v == SchemaVersion(0, 0, 0)
  {
  }

  /** NameSpace reads back the value it was set to exactly when that value
      is "Standard" or "Custom"; any other value reads back as "Custom". */
  lemma NameSpaceRoundTrip(value: string)
    ensures NameSpaceText(NameSpaceOf(value)) == value <==> value == "Standard" || value == "Custom"
    ensures value != "Standard" ==> NameSpaceText(NameSpaceOf(value)) == "Custom"
  {
  }

  /** The attributes the feature node ignores: "Foo" and the version
      attributes read as NULL whatever was set, and NameSpace set to "Bar"
      reads "Custom". */
  lemma FeatureAttributeExamples(node: RegisterDescriptionNode)
    ensures node.GetAttribute("Foo") == None
    ensures node.GetAttribute("SchemaMajorVersion") == None
    ensures node.nameSpace == NameSpaceOf("Bar") ==> node.GetAttribute("NameSpace") == Some("Custom")
  {
  }

  /** Two decimal values of the version attributes, through
      g_ascii_strtoll: one after a blank, and a negative one cut to a
      guint. */
  lemma ParseDecimalVersions()
    ensures ParseVersion(" 1") == 1
    ensures ParseVersion("-1") == 0xffff_ffff
  {
    assert EvaluatorLexer.SkipSpaces(" 1", 0) == 1;
    assert EvaluatorLexer.IntegerDigits(" 1", 1) == EvaluatorLexer.IntegerLiteral(10, 1, 2);
    assert EvaluatorLexer.IntegerDigits("-1", 1) == EvaluatorLexer.IntegerLiteral(10, 1, 2);
  }

  /** A hexadecimal value, and an empty one, which reads as 0. */
  lemma ParseOtherVersions()
    ensures ParseVersion("0x10") == 16
    ensures ParseVersion("") == 0
  {
    assert EvaluatorLexer.IntegerDigits("0x10", 0) == EvaluatorLexer.IntegerLiteral(16, 2, 4);
  }
}
