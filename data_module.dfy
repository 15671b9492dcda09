/**
 * The part of the data module that the JDBC converter relies on: the column
 * layout, the per-attribute base offsets of the two global feature index
 * spaces, and the append-only list of encoded instances.
 */
module DataModules {

  /**
   * What a column position resolves to: the first column position of its
   * attribute, the attribute's name and whether the attribute is a quality
   * (discrete) one; `false` means quantity (continuous).
   */
  datatype Column = Column(firstColumn: int, name: string, isQuality: bool)

  /**
   * One encoded row: the sparse quality features (global index to integer
   * code) and the sparse quantity features (global index to continuous value).
   */
  datatype Instance<F> = Instance(qualityFeatures: map<int, int>, quantityFeatures: map<int, F>)

  class DataModule<F> {
    /** Column position to attribute; fixed when the module is built. */
    const columns: map<int, Column>
    /** Base offset of each quality attribute in the quality index space. */
    const qualityInner: map<string, int>
    /** Base offset of each quantity attribute in the quantity index space. */
    const quantityInner: map<string, int>
    /** The instances associated so far, in the order they were associated. */
    var instances: seq<Instance<F>>

    constructor (columns: map<int, Column>, qualityInner: map<string, int>, quantityInner: map<string, int>)
      ensures this.columns == columns
      ensures this.qualityInner == qualityInner && this.quantityInner == quantityInner
      ensures instances == []
    {
      this.columns := columns;
      this.qualityInner := qualityInner;
      this.quantityInner := quantityInner;
      instances := [];
    }

    /**
     * Appends one instance built from the two feature maps. The maps are
     * values, so the caller may clear and reuse its own buffers afterwards.
     */
    method AssociateInstance(qualityFeatures: map<int, int>, quantityFeatures: map<int, F>)
      modifies this
      ensures instances == old(instances) + [Instance(qualityFeatures, quantityFeatures)]
    {
      instances := instances + [Instance(qualityFeatures, quantityFeatures)];
    }
  }
}
