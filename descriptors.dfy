/**
 * The descriptor model the schema reader hands to the emitters. A naming
 * title keeps both renderings of one schema name: the wire form, repeated
 * byte for byte in string literals and on the network, and the C# identifier
 * form produced by the (unmodelled) case conversion.
 */
module Descriptors {

  /** ICustomCaseTitle: ToOriginalString() is `wire`, ToSharpString() is `sharp`. */
  datatype NamingTitle = NamingTitle(wire: string, sharp: string)

  datatype Property = Property(name: NamingTitle, typeName: string)

  /** A class of the "objects" or "responses" category. */
  datatype ClassDescriptor = ClassDescriptor(
    title: NamingTitle,
    scope: string,
    properties: seq<Property>,
    baseClasses: seq<string>)

  datatype EnumDescriptor = EnumDescriptor(title: NamingTitle, scope: string, values: seq<string>)

  /** MethodParameterDescriptor: a parameter's name and its type's title. */
  datatype ParameterDescriptor = ParameterDescriptor(title: NamingTitle, typeTitle: NamingTitle)

  datatype MethodDescriptor = MethodDescriptor(
    title: NamingTitle,
    scope: NamingTitle,
    responseType: NamingTitle,
    parameters: seq<ParameterDescriptor>,
    description: string)

  /** EntityType, passed through to the shared scaffolding. */
  datatype EntityType = ObjectClass | ObjectEnum | Response | Method

  /** CommonGenerator's three namespace constants. */
  datatype Namespace = ObjectNamespace | ResponseNamespace | MethodNamespace
}
