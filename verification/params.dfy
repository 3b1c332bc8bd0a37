/**
 * The parameter specification of a command handler. In the Java source it is
 * read by reflection from a method's parameter types and annotations; here it
 * is given explicitly.
 */
module Params {
  import opened Outcomes

  /** The declared Java type of a parameter. */
  datatype Kind =
    | Int | Long | Float | Double | Bool | Char | Str
    | Enum(name: string, members: seq<string>)  // an enum class and its constant names in declaration order
    | Array(elem: Kind)                          // T[]
    | Other(name: string)                        // any other class (Object, Integer, List, ...)

  /** @Flag(value, alternative) or @Meta; neither makes a positional parameter. */
  datatype Role =
    | Positional
    | Flag(trigger: char, alternative: string)   // `alternative` is "" when the annotation omits it
    | Meta

  /** @Optional, @DefaultValue(literal), or neither. */
  datatype Policy = Required | Optional | Default(literal: string)

  /** One declared parameter; `usage` is its @Usage text. */
  datatype ParamSpec = ParamSpec(kind: Kind, role: Role, policy: Policy, usage: Option<string>)

  /** A @Command method: its name, its parameters in order and its @Usage text. */
  datatype CommandSpec = CommandSpec(name: string, params: seq<ParamSpec>, usage: Option<string>)

  /** The Java objects that fill the handler's parameter slots. */
  datatype Value =
    | Null
    | BoolV(b: bool)
    | IntV(i: int)
    | LongV(l: int)
    | FloatV(f: real)
    | DoubleV(d: real)
    | CharV(c: char)
    | StrV(s: string)
    | EnumV(ordinal: nat, name: string)
    | ArrayV(elems: seq<Value>)
    | Obj(id: nat)                               // any other object, known only by its identity

  /** @Optional or @DefaultValue is present. */
  predicate IsOptional(p: ParamSpec) {
    !p.policy.Required?
  }

  /** Neither @Flag nor @Meta: the parameter takes tokens from the command line. */
  predicate IsPositional(p: ParamSpec) {
    p.role.Positional?
  }
}
