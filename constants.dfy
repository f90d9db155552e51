/** Labels shared by the reader and the processor. */
module Constants {

  /** The Japanese "car name" label that anchors the header block and marks the protected column. */
  const CarNameJp: string := "車名"

  /** The English output label of the car name column. */
  const CarNameEn: string := "Car Name"

  /** The English output label of the common (model) name column. */
  const CommonNameEn: string := "Common Name"
}
