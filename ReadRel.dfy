/**
 * The leaf plan node that describes a table scan to the native engine
 * (io.glutenproject.substrait.rel.ReadRelNode), and the Substrait message it
 * serializes to: a Rel whose variant is the Read Operator of the Substrait
 * relational-algebra specification.
 *
 * The sub-nodes a read node holds (types, filter expression, local files,
 * extension table) serialize themselves; their messages and their
 * toProtobuf() are opaque here and arrive together as an `Encoders` record.
 */
module ReadRel {
  import opened Wrappers

  /** Plan-side nodes whose own serialization is outside this model. */
  type TypeNode
  type ExpressionNode
  type LocalFilesNode
  type ExtensionTableNode

  /** The Substrait messages those nodes serialize to, equally opaque. */
  type ProtoType
  type ProtoExpression
  type ProtoLocalFiles
  type ProtoExtensionTable

  /** The toProtobuf() of each kind of sub-node. */
  datatype Encoders = Encoders(
    typeProto: TypeNode -> ProtoType,
    exprProto: ExpressionNode -> ProtoExpression,
    localFilesProto: LocalFilesNode -> ProtoLocalFiles,
    extensionTableProto: ExtensionTableNode -> ProtoExtensionTable)

  // The Substrait messages built here. A message field that may be left unset
  // is an Option; a oneof is a datatype with one variant per alternative, plus
  // one for "not set".

  /** RelCommon's emit kind: emit every field (Direct) or a chosen mapping. */
  datatype RelCommon = Direct | Emit(outputMapping: seq<int>)

  /** Type.Struct: the field types of a row, in order. */
  datatype StructType = StructType(types: seq<ProtoType>)

  /** NamedStruct: the field names, in depth-first order, and the struct type. */
  datatype NamedStruct = NamedStruct(names: seq<string>, struct: Option<StructType>)

  /** ReadRel's read_type oneof, restricted to the alternatives built here. */
  datatype ReadType =
    | NoSource
    | LocalFiles(localFiles: ProtoLocalFiles)
    | ExtensionTable(extensionTable: ProtoExtensionTable)

  datatype ReadRel = ReadRel(
    common: Option<RelCommon>,
    baseSchema: Option<NamedStruct>,
    filter: Option<ProtoExpression>,
    readType: ReadType)

  /** Rel's rel_type oneof: unset, or the read variant. */
  datatype Rel = NoRelType | Read(read: ReadRel)

  /** The shared query context, from which the data source is read each time a
      read node is serialized. */
  class SubstraitContext {
    var localFilesNode: Option<LocalFilesNode>
    var extensionTableNode: Option<ExtensionTableNode>

    constructor (localFilesNode: Option<LocalFilesNode>, extensionTableNode: Option<ExtensionTableNode>)
      ensures this.localFilesNode == localFilesNode
      ensures this.extensionTableNode == extensionTableNode
    {
      this.localFilesNode := localFilesNode;
      this.extensionTableNode := extensionTableNode;
    }
  }

  /** A caller's java.util.ArrayList. */
  class ArrayList<T> {
    var elems: seq<T>

    constructor (elems: seq<T>)
      ensures this.elems == elems
    {
      this.elems := elems;
    }

    method Add(x: T)
      modifies this
      ensures elems == old(elems) + [x]
    {
      elems := elems + [x];
    }
  }

  /** The struct types of the base schema: each type node serialized, in order. */
  function EncodeTypes(typeProto: TypeNode -> ProtoType, types: seq<TypeNode>): (r: seq<ProtoType>)
    ensures |r| == |types|
    ensures forall i :: 0 <= i < |types| ==> r[i] == typeProto(types[i])
  {
    if types == [] then [] else [typeProto(types[0])] + EncodeTypes(typeProto, types[1..])
  }

  /** The Rel a read node with these fields serializes to, given what the
      context holds at that moment. */
  function BuildRead(enc: Encoders, types: seq<TypeNode>, names: seq<string>, filterNode: Option<ExpressionNode>,
                     localFiles: Option<LocalFilesNode>, extensionTable: Option<ExtensionTableNode>): (r: Rel)
  {
    var filter := match filterNode
      case None => None
      case Some(f) => Some(enc.exprProto(f));
    var readType :=
      if localFiles.Some? then LocalFiles(enc.localFilesProto(localFiles.value))
      else if extensionTable.Some? then ExtensionTable(enc.extensionTableProto(extensionTable.value))
      else NoSource;
    Read(ReadRel(Some(Direct), Some(NamedStruct(names, Some(StructType(EncodeTypes(enc.typeProto, types))))),
                 filter, readType))
  }

  /** The result is always the read variant of Rel, with a Direct common. */
  lemma ReadIsDirect(enc: Encoders, types: seq<TypeNode>, names: seq<string>, filterNode: Option<ExpressionNode>,
                     localFiles: Option<LocalFilesNode>, extensionTable: Option<ExtensionTableNode>)
    ensures var r := BuildRead(enc, types, names, filterNode, localFiles, extensionTable);
      r.Read? && r.read.common == Some(Direct)
  {
  }

  /** The base schema lists the serialized types in the node's order and the
      names in the node's order, duplicates included; nothing relates their
      lengths. */
  lemma BaseSchemaKeepsOrder(enc: Encoders, types: seq<TypeNode>, names: seq<string>, filterNode: Option<ExpressionNode>,
                             localFiles: Option<LocalFilesNode>, extensionTable: Option<ExtensionTableNode>)
    ensures var r := BuildRead(enc, types, names, filterNode, localFiles, extensionTable);
      && r.Read? && r.read.baseSchema.Some?
      && r.read.baseSchema.value.names == names
      && r.read.baseSchema.value.struct.Some?
      && |r.read.baseSchema.value.struct.value.types| == |types|
      && forall i :: 0 <= i < |types| ==> r.read.baseSchema.value.struct.value.types[i] == enc.typeProto(types[i])
  {
  }

  /** The filter field is set exactly when the node has a filter, and then to
      that filter's serialization. */
  lemma FilterIffPresent(enc: Encoders, types: seq<TypeNode>, names: seq<string>, filterNode: Option<ExpressionNode>,
                         localFiles: Option<LocalFilesNode>, extensionTable: Option<ExtensionTableNode>)
    ensures var r := BuildRead(enc, types, names, filterNode, localFiles, extensionTable);
      && r.Read?
      && (r.read.filter.Some? <==> filterNode.Some?)
      && (filterNode.Some? ==> r.read.filter == Some(enc.exprProto(filterNode.value)))
  {
  }

  /** Local files win over an extension table; the extension table is used
      only without local files; with neither, no source is set and nothing
      fails. */
  lemma SourcePrecedence(enc: Encoders, types: seq<TypeNode>, names: seq<string>, filterNode: Option<ExpressionNode>,
                         localFiles: Option<LocalFilesNode>, extensionTable: Option<ExtensionTableNode>)
    ensures var r := BuildRead(enc, types, names, filterNode, localFiles, extensionTable);
      && r.Read?
      && (localFiles.Some? ==> r.read.readType == LocalFiles(enc.localFilesProto(localFiles.value)))
      && (r.read.readType.ExtensionTable? <==> localFiles.None? && extensionTable.Some?)
      && (extensionTable.Some? && localFiles.None? ==>
            r.read.readType == ExtensionTable(enc.extensionTableProto(extensionTable.value)))
      && (r.read.readType.NoSource? <==> localFiles.None? && extensionTable.None?)
  {
  }

  class ReadRelNode {
    const types: seq<TypeNode>
    const names: seq<string>
    /** None stands for a null filterNode. */
    const filterNode: Option<ExpressionNode>
    const context: SubstraitContext

    /** Copies the caller's lists (Java's addAll into the node's own lists:
        here the fields take the lists' current values); the filter may be
        absent. */
    constructor (types: ArrayList<TypeNode>, names: ArrayList<string>, filterNode: Option<ExpressionNode>,
                 context: SubstraitContext)
      ensures this.types == types.elems && this.names == names.elems
      ensures this.filterNode == filterNode && this.context == context
    {
      this.types := types.elems;
      this.names := names.elems;
      this.filterNode := filterNode;
      this.context := context;
    }

    /** Copies the caller's lists, as the other constructor does; the node
        has no filter. */
    constructor WithoutFilter(types: ArrayList<TypeNode>, names: ArrayList<string>, context: SubstraitContext)
      ensures this.types == types.elems && this.names == names.elems
      ensures this.filterNode == None && this.context == context
    {
      this.types := types.elems;
      this.names := names.elems;
      this.filterNode := None;
      this.context := context;
    }

    /** Builds the Rel field by field, reading the context's data source at
        the time of the call; changes nothing. */
    method ToProtobuf(enc: Encoders) returns (r: Rel)
      ensures r == BuildRead(enc, types, names, filterNode, context.localFilesNode, context.extensionTableNode)
    {
      var common := Direct;

      var structTypes: seq<ProtoType> := [];
      for i := 0 to |types|
        invariant |structTypes| == i
        invariant forall k :: 0 <= k < i ==> structTypes[k] == enc.typeProto(types[k])
      {
        structTypes := structTypes + [enc.typeProto(types[i])];
      }
      assert structTypes == EncodeTypes(enc.typeProto, types);
      var schemaNames: seq<string> := [];
      for i := 0 to |names|
        invariant schemaNames == names[..i]
      {
        schemaNames := schemaNames + [names[i]];
      }
      assert schemaNames == names;
      var baseSchema := NamedStruct(schemaNames, Some(StructType(structTypes)));

      var filter: Option<ProtoExpression> := None;
      if filterNode.Some? {
        filter := Some(enc.exprProto(filterNode.value));
      }
      var readType := NoSource;
      if context.localFilesNode.Some? {
        readType := LocalFiles(enc.localFilesProto(context.localFilesNode.value));
      } else if context.extensionTableNode.Some? {
        readType := ExtensionTable(enc.extensionTableProto(context.extensionTableNode.value));
      }
      r := Read(ReadRel(Some(common), Some(baseSchema), filter, readType));
    }
  }

  /** Serializing twice with the context unchanged gives equal messages. */
  method ToProtobufTwice(node: ReadRelNode, enc: Encoders) returns (first: Rel, second: Rel)
    ensures first == second
    ensures first.Read? && first.read.common == Some(Direct)
  {
    first := node.ToProtobuf(enc);
    ReadIsDirect(enc, node.types, node.names, node.filterNode,
                 node.context.localFilesNode, node.context.extensionTableNode);
    second := node.ToProtobuf(enc);
  }

  /** The node keeps the lists as they were at construction: a later change
      to the caller's list does not reach it. This follows from the node's
      fields being values, which is how the model represents the copy. */
  method CallerListChangeNotSeen(types: ArrayList<TypeNode>, names: ArrayList<string>, context: SubstraitContext,
                                 extra: TypeNode) returns (node: ReadRelNode)
    modifies types
    ensures types.elems == old(types.elems) + [extra]
    ensures node.types == old(types.elems) && node.filterNode == None
  {
    node := new ReadRelNode.WithoutFilter(types, names, context);
    types.Add(extra);
  }
}
